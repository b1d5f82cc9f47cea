/** The symbol demangler: nested names and built-in parameter types of the Itanium C++ ABI
    (section 5.1, External Names), printed in the kernel's own spelling. */
module Demangler {
  import opened Options

  /** The characters of a name without its terminator; one past the end reads as the terminator. */
  function At(name: string, i: nat): char {
    if i < |name| then name[i] else '\0'
  }

  predicate IsDigit(c: char) {
    '0' <= c <= '9'
  }

  predicate AllDigits(s: string) {
    forall i :: 0 <= i < |s| ==> IsDigit(s[i])
  }

  // ----- Decimal lengths -----

  /** The value `atoi` gives to a string of digits. */
  function Value(s: string): nat
    requires AllDigits(s)
  {
    if s == [] then 0 else 10 * Value(s[..|s| - 1]) + (s[|s| - 1] as nat - '0' as nat)
  }

  function DigitsEnd(name: string, i: nat): (end: nat)
    requires i <= |name|
    ensures i <= end <= |name| && AllDigits(name[i..end])
    ensures end < |name| ==> !IsDigit(name[end])
    decreases |name| - i
  {
    if i < |name| && IsDigit(name[i]) then
      var end := DigitsEnd(name, i + 1);
      assert name[i..end] == [name[i]] + name[i + 1..end];
      end
    else i
  }

  function Decimal(n: nat): (s: string)
    ensures s != [] && AllDigits(s) && Value(s) == n
  {
    var last := ('0' as nat + n % 10) as char;
    if n < 10 then
      assert [last][..0] == [];
      [last]
    else
      var front := Decimal(n / 10);
      assert (front + [last])[..|front|] == front;
      front + [last]
  }

  datatype Parsed = Parsed(length: nat, next: nat)

  function ParseLength(name: string, i: nat): Parsed
    requires i <= |name|
  {
    var end := DigitsEnd(name, i);
    Parsed(Value(name[i..end]), end)
  }

  // ----- Names -----

  datatype Cursor = Cursor(text: string, next: nat)

  /** A length and that many characters; `None` when they are not there. */
  function Component(name: string, i: nat): Option<Cursor>
    requires i <= |name|
  {
    var p := ParseLength(name, i);
    if p.next + p.length <= |name| then Some(Cursor(name[p.next..p.next + p.length], p.next + p.length)) else None
  }

  /** The loop over the components of a nested name. `None` when it would read past the end or
      make no progress, and so never stop. */
  function Components(name: string, i: nat, out: string): Option<Cursor>
    requires i <= |name|
    decreases |name| - i
  {
    if At(name, i) == 'E' then Some(Cursor(out, i + 1))
    else
      match Component(name, i)
      case None => None
      case Some(c) =>
        if c.next <= i then None
        else Components(name, c.next, out + c.text + if At(name, c.next) != 'E' then "::" else "")
  }

  function Unmangle(name: string, i: nat): Option<Cursor>
    requires i <= |name|
  {
    var nested := At(name, i) == 'N';
    match Component(name, if nested then i + 1 else i)
    case None => None
    case Some(c) => if nested then Components(name, c.next, c.text + "::") else Some(c)
  }

  /** A name part the ABI can write: not empty, not starting with a digit, and with no terminator
      inside. */
  predicate Identifier(p: string) {
    p != [] && !IsDigit(p[0]) && '\0' !in p
  }

  predicate Identifiers(parts: seq<string>) {
    forall k :: 0 <= k < |parts| ==> Identifier(parts[k])
  }

  function Encode(parts: seq<string>): string {
    if parts == [] then "" else Decimal(|parts[0]|) + parts[0] + Encode(parts[1..])
  }

  function Join(parts: seq<string>, separator: string): string {
    if parts == [] then ""
    else if |parts| == 1 then parts[0]
    else parts[0] + separator + Join(parts[1..], separator)
  }

  predicate StartsAt(name: string, i: nat, s: string) {
    i + |s| <= |name| && name[i..i + |s|] == s
  }

  lemma SplitAt(name: string, i: nat, a: string, b: string)
    requires StartsAt(name, i, a + b)
    ensures StartsAt(name, i, a) && StartsAt(name, i + |a|, b)
  {
    assert name[i..i + |a + b|][..|a|] == a;
    assert name[i..i + |a + b|][|a|..] == b;
  }

  lemma {:induction false} DigitsEndIs(name: string, i: nat, end: nat)
    requires i <= end <= |name| && AllDigits(name[i..end]) && (end < |name| ==> !IsDigit(name[end]))
    ensures DigitsEnd(name, i) == end
    decreases end - i
  {
    if i < end {
      assert IsDigit(name[i..end][0]);
      assert name[i + 1..end] == name[i..end][1..];
      DigitsEndIs(name, i + 1, end);
    }
  }

  lemma ComponentReads(name: string, i: nat, p: string)
    requires Identifier(p) && StartsAt(name, i, Decimal(|p|) + p)
    ensures Component(name, i) == Some(Cursor(p, i + |Decimal(|p|) + p|))
    ensures IsDigit(At(name, i))
  {
    var d := Decimal(|p|);
    SplitAt(name, i, d, p);
    var end := i + |d|;
    assert name[end] == name[end..end + |p|][0];
    DigitsEndIs(name, i, end);
    assert name[i] == d[0];
  }

  /** From i to end the name spells out the parts, each with its length before it. */
  predicate Spelled(name: string, i: nat, parts: seq<string>, end: nat)
    decreases |parts|
  {
    if parts == [] then i == end <= |name|
    else
      && StartsAt(name, i, Decimal(|parts[0]|) + parts[0])
      && Spelled(name, i + |Decimal(|parts[0]|) + parts[0]|, parts[1..], end)
  }

  lemma {:induction false} EncodeSpells(name: string, i: nat, parts: seq<string>, end: nat)
    requires StartsAt(name, i, Encode(parts)) && end == i + |Encode(parts)|
    ensures Spelled(name, i, parts, end)
    decreases |parts|
  {
    if parts != [] {
      var d, rest := Decimal(|parts[0]|) + parts[0], Encode(parts[1..]);
      assert Encode(parts) == d + rest;
      SplitAt(name, i, d, rest);
      EncodeSpells(name, i + |d|, parts[1..], end);
    }
  }

  lemma EndOfParts(name: string, i: nat, parts: seq<string>, end: nat)
    requires Identifiers(parts) && Spelled(name, i, parts, end) && At(name, end) == 'E'
    ensures At(name, i) == 'E' <==> parts == []
  {
    if parts != [] {
      ComponentReads(name, i, parts[0]);
    }
  }

  lemma SpelledTail(name: string, i: nat, parts: seq<string>, end: nat, next: nat)
    requires parts != [] && Spelled(name, i, parts, end) && next == i + |Decimal(|parts[0]|) + parts[0]|
    ensures Spelled(name, next, parts[1..], end)
  {
  }

  /** One turn of the loop takes one part. */
  lemma ComponentsStep(name: string, i: nat, parts: seq<string>, end: nat, next: nat, out: string)
    requires Identifiers(parts) && parts != [] && Spelled(name, i, parts, end) && At(name, end) == 'E'
    requires next == i + |Decimal(|parts[0]|) + parts[0]|
    ensures i <= |name| && next <= |name|
    ensures Components(name, i, out) == Components(name, next, out + parts[0] + if parts[1..] == [] then "" else "::")
  {
    ComponentReads(name, i, parts[0]);
    EndOfParts(name, next, parts[1..], end);
    ComponentsUnfold(name, i, parts[0], next, out);
  }

  lemma ComponentsUnfold(name: string, i: nat, p: string, next: nat, out: string)
    requires i < next <= |name| && At(name, i) != 'E' && Component(name, i) == Some(Cursor(p, next))
    ensures Components(name, i, out) == Components(name, next, out + p + if At(name, next) != 'E' then "::" else "")
  {
  }

  lemma {:induction false} ComponentsRead(name: string, i: nat, parts: seq<string>, end: nat, out: string)
    requires Identifiers(parts) && Spelled(name, i, parts, end) && At(name, end) == 'E'
    ensures i <= |name| && Components(name, i, out) == Some(Cursor(out + Join(parts, "::"), end + 1))
    decreases |parts|
  {
    if parts == [] {
      assert out + "" == out;
    } else {
      var p, rest := parts[0], parts[1..];
      var next := i + |Decimal(|p|) + p|;
      SpelledTail(name, i, parts, end, next);
      ComponentsStep(name, i, parts, end, next, out);
      ComponentsRead(name, next, rest, end, out + p + if rest == [] then "" else "::");
      JoinStep(out, parts, "::");
    }
  }

  lemma JoinStep(out: string, parts: seq<string>, separator: string)
    requires parts != []
    ensures out + parts[0] + (if parts[1..] == [] then "" else separator) + Join(parts[1..], separator)
         == out + Join(parts, separator)
  {
    var first, more := parts[0], parts[1..];
    if more == [] {
      assert out + first + "" + "" == out + first;
    } else {
      assert out + first + separator + Join(more, separator) == out + (first + separator + Join(more, separator));
    }
  }

  /** What the source makes of a nested name: the parts joined by `::`, but with the separator
      left over at the end when there are fewer than two. */
  function NestedText(parts: seq<string>): string {
    Join(parts, "::") + if |parts| < 2 then "::" else ""
  }

  /** The round trip of nested names, for every list of parts. */
  lemma UnmangleNested(name: string, i: nat, parts: seq<string>, end: nat)
    requires Identifiers(parts) && i < |name| && name[i] == 'N'
    requires StartsAt(name, i + 1, Encode(parts)) && end == i + 1 + |Encode(parts)| && At(name, end) == 'E'
    ensures Unmangle(name, i) == Some(Cursor(NestedText(parts), end + 1))
  {
    EncodeSpells(name, i + 1, parts, end);
    UnmangleSpelled(name, i, parts, end);
  }

  lemma UnmangleSpelled(name: string, i: nat, parts: seq<string>, end: nat)
    requires At(name, i) == 'N' && i < |name| && Spelled(name, i + 1, parts, end) && At(name, end) == 'E'
    requires Identifiers(parts)
    ensures Unmangle(name, i) == Some(Cursor(NestedText(parts), end + 1))
  {
    if parts == [] {
      NothingToParse(name, end);
    } else {
      FirstComponent(name, i, parts, end, i + 1 + |Decimal(|parts[0]|) + parts[0]|);
    }
  }

  lemma NothingToParse(name: string, i: nat)
    requires i <= |name| && !IsDigit(At(name, i))
    ensures Component(name, i) == Some(Cursor("", i))
  {
    DigitsEndIs(name, i, i);
    assert name[i..i] == [];
  }

  lemma FirstComponent(name: string, i: nat, parts: seq<string>, end: nat, next: nat)
    requires At(name, i) == 'N' && i < |name| && Spelled(name, i + 1, parts, end) && At(name, end) == 'E'
    requires Identifiers(parts) && parts != [] && next == i + 1 + |Decimal(|parts[0]|) + parts[0]|
    ensures Unmangle(name, i) == Some(Cursor(NestedText(parts), end + 1))
  {
    SpelledTail(name, i + 1, parts, end, next);
    ComponentReads(name, i + 1, parts[0]);
    UnmangleUnfold(name, i, parts[0], next);
    ComponentsRead(name, next, parts[1..], end, parts[0] + "::");
    NestedTextStep(parts);
  }

  lemma UnmangleUnfold(name: string, i: nat, p: string, next: nat)
    requires i < |name| && At(name, i) == 'N' && next <= |name| && Component(name, i + 1) == Some(Cursor(p, next))
    ensures Unmangle(name, i) == Components(name, next, p + "::")
  {
  }

  lemma NestedTextStep(parts: seq<string>)
    requires parts != []
    ensures parts[0] + "::" + Join(parts[1..], "::") == NestedText(parts)
  {
    if |parts| == 1 {
      assert parts[0] + "::" + "" == parts[0] + "::";
    } else {
      assert NestedText(parts) == Join(parts, "::");
    }
  }

  // ----- Parameters -----

  /** The codes for built-in types and prefixes. */
  function CodeText(c: char): Option<string> {
    match c
    case 'P' => Some("*")
    case 'K' => Some("const ")
    case 'v' => Some("void")
    case 'm' => Some("u64")
    case 'j' => Some("u32")
    case 't' => Some("u16")
    case 'h' => Some("u8")
    case 'y' => Some("u64")
    case 'x' => Some("long long")
    case 'i' => Some("int")
    case 'l' => Some("long")
    case 'c' => Some("char")
    case 'b' => Some("bool")
    case 'f' => Some("float")
    case 'd' => Some("double")
    case 's' => Some("short")
    case 'z' => Some("...")
    case _ => None
  }

  /** The unsigned codes print "u" and the width of the type. */
  lemma UnsignedCodes()
    ensures CodeText('h') == Some("u" + Decimal(8)) && CodeText('t') == Some("u" + Decimal(16))
    ensures CodeText('j') == Some("u" + Decimal(32))
    ensures CodeText('m') == Some("u" + Decimal(64)) && CodeText('y') == Some("u" + Decimal(64))
  {
    assert Decimal(8) == "8" && Decimal(1) == "1" && Decimal(3) == "3" && Decimal(6) == "6";
    assert Decimal(16) == "16" && Decimal(32) == "32" && Decimal(64) == "64";
    assert "u" + "8" == "u8" && "u" + "16" == "u16" && "u" + "32" == "u32" && "u" + "64" == "u64";
  }

  /** The codes of void, bool, char, float, double, short, int and long are the first letters of these
      names, `long long` is `long` twice, and no two codes print alike but the two unsigned ones of
      64 bits. */
  lemma CodesNameTypes(a: char, b: char)
    ensures a in "vbcfdsil" ==> CodeText(a).Some? && CodeText(a).value[0] == a
    ensures CodeText('x') == Some(CodeText('l').value + " " + CodeText('l').value)
    ensures CodeText(a).Some? && CodeText(a) == CodeText(b) && !(a in "my" && b in "my") ==> a == b
  {
    assert "long" + " " + "long" == "long long";
    if CodeText(a).Some? && CodeText(a) == CodeText(b) {
      var s := CodeText(a).value;
      assert |s| == |CodeText(b).value|;
      assert forall i :: 0 <= i < |s| ==> s[i] == CodeText(b).value[i];
    }
  }

  predicate IsPrefix(c: char) {
    c == 'P' || c == 'K'
  }

  /** What may follow a parameter list. */
  predicate Trailer(rest: string) {
    IsEnd(At(rest, 0)) && '\0' !in rest
  }

  predicate IsEnd(c: char) {
    c == 'E' || c == '\0' || c == ' '
  }

  datatype Params = Params(text: string, next: nat, seen: seq<string>)

  /** The parameter loop. `latest` is the text of the parameter so far and `seen` the finished
      ones; substitutions and class types are not modelled and give `None`. */
  function Parameters(name: string, i: nat, out: string, latest: string, seen: seq<string>): Option<Params>
    requires i <= |name|
    decreases |name| - i
  {
    var c := At(name, i);
    if IsEnd(c) then Some(Params(out, i, seen))
    else
      match CodeText(c)
      case None => None
      case Some(text) =>
        if IsPrefix(c) then Parameters(name, i + 1, out + text, latest + text, seen)
        else Parameters(name, i + 1, out + text + (if IsEnd(At(name, i + 1)) then "" else ", "), "", seen + [latest + text])
  }

  /** A parameter type: pointer and const prefixes, and a built-in type. */
  datatype Type = Type(prefixes: string, base: char)

  predicate WellFormed(t: Type) {
    && (forall k :: 0 <= k < |t.prefixes| ==> IsPrefix(t.prefixes[k]))
    && CodeText(t.base).Some? && !IsPrefix(t.base)
  }

  function Codes(types: seq<Type>): string {
    if types == [] then "" else types[0].prefixes + [types[0].base] + Codes(types[1..])
  }

  function PrefixText(prefixes: string): string
    requires forall k :: 0 <= k < |prefixes| ==> IsPrefix(prefixes[k])
  {
    if prefixes == [] then ""
    else
      assert IsPrefix(prefixes[0]);
      CodeText(prefixes[0]).value + PrefixText(prefixes[1..])
  }

  function TypeText(t: Type): string
    requires WellFormed(t)
  {
    PrefixText(t.prefixes) + CodeText(t.base).value
  }

  function Texts(types: seq<Type>): (r: seq<string>)
    requires forall k :: 0 <= k < |types| ==> WellFormed(types[k])
    ensures |r| == |types|
  {
    if types == [] then [] else [TypeText(types[0])] + Texts(types[1..])
  }

  /** From i to end the name spells out the types, and there the list ends. */
  predicate TypesSpelled(name: string, i: nat, types: seq<Type>, end: nat)
    decreases |types|
  {
    if types == [] then i == end <= |name| && IsEnd(At(name, end))
    else
      && StartsAt(name, i, types[0].prefixes)
      && At(name, i + |types[0].prefixes|) == types[0].base
      && i + |types[0].prefixes| < |name|
      && TypesSpelled(name, i + |types[0].prefixes| + 1, types[1..], end)
  }

  lemma CodesStep(name: string, i: nat, prefixes: string, base: char, tail: string, j: nat)
    requires StartsAt(name, i, prefixes + [base] + tail) && j == i + |prefixes|
    ensures StartsAt(name, i, prefixes) && j < |name| && name[j] == base && StartsAt(name, j + 1, tail)
  {
    SplitAt(name, i, prefixes + [base], tail);
    SplitAt(name, i, prefixes, [base]);
    assert name[j] == name[j..j + 1][0];
  }

  lemma {:induction false} CodesSpell(name: string, i: nat, types: seq<Type>, rest: string)
    requires StartsAt(name, i, Codes(types) + rest) && i + |Codes(types) + rest| == |name| && IsEnd(At(rest, 0))
    ensures TypesSpelled(name, i, types, i + |Codes(types)|)
    decreases |types|
  {
    if types == [] {
      assert Codes(types) + rest == rest;
      assert rest != [] ==> name[i] == name[i..i + |rest|][0];
    } else {
      var t, tail := types[0], Codes(types[1..]) + rest;
      assert Codes(types) + rest == t.prefixes + [t.base] + tail;
      var j := i + |t.prefixes|;
      CodesStep(name, i, t.prefixes, t.base, tail, j);
      CodesSpell(name, j + 1, types[1..], rest);
    }
  }

  /** Prefixes are printed as they come and kept for the parameter they belong to. */
  lemma {:induction false} PrefixesRead(name: string, i: nat, prefixes: string, out: string, latest: string,
                                        seen: seq<string>)
    requires forall k :: 0 <= k < |prefixes| ==> IsPrefix(prefixes[k])
    requires StartsAt(name, i, prefixes)
    ensures var t := PrefixText(prefixes);
            Parameters(name, i, out, latest, seen) == Parameters(name, i + |prefixes|, out + t, latest + t, seen)
    decreases |prefixes|
  {
    if prefixes == [] {
      assert out + "" == out && latest + "" == latest;
    } else {
      var text, rest := CodeText(prefixes[0]).value, prefixes[1..];
      assert prefixes == [prefixes[0]] + rest;
      SplitAt(name, i, [prefixes[0]], rest);
      assert name[i] == name[i..i + 1][0] == prefixes[0];
      PrefixesRead(name, i + 1, rest, out + text, latest + text, seen);
      assert out + text + PrefixText(rest) == out + PrefixText(prefixes);
      assert latest + text + PrefixText(rest) == latest + PrefixText(prefixes);
    }
  }

  /** A built-in type finishes its parameter. */
  lemma BaseRead(name: string, i: nat, base: char, out: string, latest: string, seen: seq<string>)
    requires i < |name| && name[i] == base && CodeText(base).Some? && !IsPrefix(base)
    ensures var text := CodeText(base).value;
            Parameters(name, i, out, latest, seen)
              == Parameters(name, i + 1, out + text + (if IsEnd(At(name, i + 1)) then "" else ", "), "", seen + [latest + text])
  {
  }

  lemma EndOfTypes(name: string, i: nat, types: seq<Type>, end: nat)
    requires (forall k :: 0 <= k < |types| ==> WellFormed(types[k])) && TypesSpelled(name, i, types, end)
    ensures IsEnd(At(name, i)) <==> types == []
  {
    if types != [] && types[0].prefixes != [] {
      assert name[i] == name[i..i + |types[0].prefixes|][0];
    }
  }

  lemma TypeRead(name: string, i: nat, t: Type, next: nat, out: string, seen: seq<string>)
    requires WellFormed(t) && StartsAt(name, i, t.prefixes) && next == i + |t.prefixes| + 1
    requires next <= |name| && name[next - 1] == t.base
    ensures Parameters(name, i, out, "", seen)
         == Parameters(name, next, out + TypeText(t) + (if IsEnd(At(name, next)) then "" else ", "), "", seen + [TypeText(t)])
  {
    var before := PrefixText(t.prefixes);
    PrefixesRead(name, i, t.prefixes, out, "", seen);
    assert "" + before == before;
    BaseRead(name, next - 1, t.base, out + before, before, seen);
    assert out + before + CodeText(t.base).value == out + TypeText(t);
  }

  /** One parameter: its text is printed and remembered, with a comma when another follows. */
  lemma ParameterStep(name: string, i: nat, types: seq<Type>, end: nat, next: nat, out: string, seen: seq<string>)
    requires (forall k :: 0 <= k < |types| ==> WellFormed(types[k])) && TypesSpelled(name, i, types, end)
    requires types != [] && next == i + |types[0].prefixes| + 1
    ensures next <= |name|
    ensures Parameters(name, i, out, "", seen)
         == Parameters(name, next, out + TypeText(types[0]) + (if types[1..] == [] then "" else ", "), "", seen + [TypeText(types[0])])
  {
    TypeRead(name, i, types[0], next, out, seen);
    EndOfTypes(name, next, types[1..], end);
  }

  lemma JoinCons(out: string, first: string, more: seq<string>, all: seq<string>, seen: seq<string>)
    requires all == [first] + more
    ensures out + first + (if more == [] then "" else ", ") + Join(more, ", ") == out + Join(all, ", ")
    ensures seen + [first] + more == seen + all
  {
    assert all[1..] == more;
    JoinStep(out, all, ", ");
  }

  /** The parameter loop on well-formed types: their texts joined by commas, each remembered, and
      the cursor at the end of the list. */
  lemma {:induction false} ParametersRead(name: string, i: nat, types: seq<Type>, end: nat, out: string,
                                          seen: seq<string>)
    requires (forall k :: 0 <= k < |types| ==> WellFormed(types[k])) && TypesSpelled(name, i, types, end)
    ensures i <= |name|
    ensures Parameters(name, i, out, "", seen)
         == Some(Params(out + Join(Texts(types), ", "), end, seen + Texts(types)))
    decreases |types|
  {
    if types == [] {
      assert out + "" == out && seen + [] == seen;
    } else {
      var text, more := TypeText(types[0]), types[1..];
      var next := i + |types[0].prefixes| + 1;
      ParameterStep(name, i, types, end, next, out, seen);
      ParametersRead(name, next, more, end, out + text + (if more == [] then "" else ", "), seen + [text]);
      JoinCons(out, text, Texts(more), Texts(types), seen);
    }
  }

  // ----- Whole symbols -----

  predicate IsMangled(name: string) {
    At(name, 0) == '_' && At(name, 1) == 'Z'
  }

  function FunctionName(name: string): Option<Cursor>
    requires IsMangled(name)
  {
    if At(name, 2) == 'N' then Unmangle(name, 2) else Component(name, 2)
  }

  /** A name that is not mangled is copied; otherwise name, parameters and what is left over. */
  function Demangle(name: string): Option<string> {
    if !IsMangled(name) then Some(name)
    else
      match FunctionName(name)
      case None => None
      case Some(f) => WithParameters(name, f)
  }

  function WithParameters(name: string, f: Cursor): Option<string> {
    if f.next > |name| then None
    else
      match Parameters(name, f.next, f.text + "(", "", [])
      case None => None
      case Some(p) => if p.next > |name| then None else Some(p.text + ")" + name[p.next..])
  }

  /** A nested function as the ABI writes it. */
  function NestedSymbol(parts: seq<string>, types: seq<Type>, rest: string): string {
    "_ZN" + Encode(parts) + "E" + (Codes(types) + rest)
  }

  function PlainSymbol(p: string, types: seq<Type>, rest: string): string {
    "_Z" + (Decimal(|p|) + p) + (Codes(types) + rest)
  }

  /** The text a reader expects. */
  function Printed(text: string, types: seq<Type>, rest: string): string
    requires forall k :: 0 <= k < |types| ==> WellFormed(types[k])
  {
    text + "(" + Join(Texts(types), ", ") + ")" + rest
  }

  /** A list of parameters may be followed by nothing, by an end mark, or by a space, as before the
      offset that a resolved address is printed with. */
  lemma TrailerIs(rest: string)
    ensures Trailer(rest) <==> '\0' !in rest && (rest == "" || rest[0] == 'E' || rest[0] == ' ')
  {
  }

  /** A name that does not start as mangled ones do is left as it is. */
  lemma PlainNamesKept(name: string)
    requires !("_Z" <= name)
    ensures Demangle(name) == Some(name)
  {
    MangledIs(name);
  }

  lemma MangledIs(name: string)
    ensures IsMangled(name) <==> "_Z" <= name
  {
    assert 2 <= |name| ==> name[..2] == [name[0], name[1]];
  }

  /** End to end: a mangled nested function of built-in parameters, with anything behind it that
      starts where a parameter list ends, is printed as the ABI reads it. */
  lemma DemangleNested(parts: seq<string>, types: seq<Type>, rest: string)
    requires Identifiers(parts) && (forall k :: 0 <= k < |types| ==> WellFormed(types[k])) && Trailer(rest)
    ensures Demangle(NestedSymbol(parts, types, rest)) == Some(Printed(NestedText(parts), types, rest))
    ensures FunctionName(NestedSymbol(parts, types, rest)) == Some(Cursor(NestedText(parts), 4 + |Encode(parts)|))
  {
    var e, tail := Encode(parts), Codes(types) + rest;
    var name := "_ZN" + e + "E" + tail;
    NestedLayout(e, tail, name);
    UnmangleNested(name, 2, parts, 3 + |e|);
    DemangleTail(name, 4 + |e|, types, rest, NestedText(parts), 4 + |e| + |Codes(types)|);
  }

  lemma NestedLayout(e: string, tail: string, name: string)
    requires name == "_ZN" + e + "E" + tail
    ensures IsMangled(name) && At(name, 2) == 'N' && 4 + |e| <= |name|
    ensures StartsAt(name, 3, e) && At(name, 3 + |e|) == 'E' && name[4 + |e|..] == tail
  {
  }

  lemma DemanglePlain(p: string, types: seq<Type>, rest: string)
    requires Identifier(p) && (forall k :: 0 <= k < |types| ==> WellFormed(types[k])) && Trailer(rest)
    ensures Demangle(PlainSymbol(p, types, rest)) == Some(Printed(p, types, rest))
    ensures FunctionName(PlainSymbol(p, types, rest)) == Some(Cursor(p, 2 + |Decimal(|p|) + p|))
  {
    var d, tail := Decimal(|p|) + p, Codes(types) + rest;
    var name := "_Z" + d + tail;
    PlainLayout(d, tail, name);
    PlainName(name, p, 2 + |d|);
    DemangleTail(name, 2 + |d|, types, rest, p, 2 + |d| + |Codes(types)|);
  }

  lemma PlainName(name: string, p: string, next: nat)
    requires Identifier(p) && IsMangled(name) && StartsAt(name, 2, Decimal(|p|) + p) && next == 2 + |Decimal(|p|) + p|
    ensures FunctionName(name) == Some(Cursor(p, next))
  {
    ComponentReads(name, 2, p);
  }

  lemma PlainLayout(d: string, tail: string, name: string)
    requires name == "_Z" + d + tail
    ensures IsMangled(name) && 2 + |d| <= |name| && StartsAt(name, 2, d) && name[2 + |d|..] == tail
  {
  }

  lemma DemangleTail(name: string, i: nat, types: seq<Type>, rest: string, text: string, end: nat)
    requires forall k :: 0 <= k < |types| ==> WellFormed(types[k])
    requires i <= |name| && name[i..] == Codes(types) + rest && IsEnd(At(rest, 0)) && end == i + |Codes(types)|
    ensures WithParameters(name, Cursor(text, i)) == Some(Printed(text, types, rest))
  {
    RestOfName(name, i, Codes(types), rest);
    CodesSpell(name, i, types, rest);
    ParametersRead(name, i, types, end, text + "(", []);
  }

  lemma RestOfName(name: string, i: nat, codes: string, rest: string)
    requires i <= |name| && name[i..] == codes + rest
    ensures i + |codes + rest| == |name| && StartsAt(name, i, codes + rest)
    ensures name[i + |codes|..] == rest
  {
    assert name[i..][|codes|..] == rest;
    assert name[i..|name|] == name[i..];
  }
}
