/** The rest of the demangler's parameter loop: substitutions, class types and unknown codes, where
    the printed text is not what the ABI means. */
module Substitutions {
  import opened Options
  import opened Demangler

  /** The number in a substitution, none being 0, and where its underscore is. `None` when anything
      but digits comes before the underscore, or there is none. */
  function RowNumber(name: string, i: nat): Option<Parsed>
    requires i <= |name|
  {
    var p := ParseLength(name, i);
    if At(name, p.next) == '_' then Some(p) else None
  }

  function UpToSpace(s: string): string {
    if s == [] || s[0] == ' ' then "" else [s[0]] + UpToSpace(s[1..])
  }

  /** What the code at i prints, and the index that it leaves behind: its own for a built-in type or
      a prefix, that of the underscore for a substitution, one past the end for a class name. A
      code that is not known prints all of the name from there. `None` when the source would read
      past the end, or a row that was never written. */
  function Single(name: string, i: nat, seen: seq<string>): Option<Cursor>
    requires i < |name|
  {
    var c := name[i];
    if CodeText(c).Some? then Some(Cursor(CodeText(c).value, i))
    else if c == 'S' then
      match RowNumber(name, i + 1)
      case None => None
      case Some(p) => if p.length < |seen| then Some(Cursor(UpToSpace(seen[p.length]), p.next)) else None
    else if IsDigit(c) || c == 'N' then Unmangle(name, i)
    else Some(Cursor(name[i..], i))
  }

  /** The parameter loop with all codes. The character left behind decides whether the parameter goes
      on, and is stepped over: `None` when that is the terminator. */
  function AllParameters(name: string, i: nat, out: string, latest: string, seen: seq<string>): Option<Params>
    requires i <= |name|
    decreases |name| - i
  {
    if IsEnd(At(name, i)) then Some(Params(out, i, seen))
    else
      match Single(name, i, seen)
      case None => None
      case Some(s) =>
        if s.next < i || s.next >= |name| then None
        else if IsPrefix(name[s.next]) then AllParameters(name, s.next + 1, out + s.text, latest + s.text, seen)
        else AllParameters(name, s.next + 1, out + s.text + (if IsEnd(At(name, s.next + 1)) then "" else ", "), "",
                           seen + [latest + s.text])
  }

  /** The whole symbol, with all codes. */
  function DemangleAll(name: string): Option<string> {
    if !IsMangled(name) then Some(name)
    else
      match FunctionName(name)
      case None => None
      case Some(f) =>
        if f.next > |name| then None
        else
          match AllParameters(name, f.next, f.text + "(", "", [])
          case None => None
          case Some(p) => if p.next > |name| then None else Some(p.text + ")" + name[p.next..])
  }

  /** A turn that finishes its parameter, one that does not, and one that runs past the end. */
  lemma Finishes(name: string, i: nat, s: Cursor, out: string, latest: string, seen: seq<string>, after: string,
                 text: string)
    requires i <= s.next < |name| && !IsEnd(name[i]) && Single(name, i, seen) == Some(s) && !IsPrefix(name[s.next])
    requires after == out + s.text + (if IsEnd(At(name, s.next + 1)) then "" else ", ") && text == latest + s.text
    ensures AllParameters(name, i, out, latest, seen) == AllParameters(name, s.next + 1, after, "", seen + [text])
  {
  }

  lemma GoesOn(name: string, i: nat, s: Cursor, out: string, latest: string, seen: seq<string>)
    requires i <= s.next < |name| && !IsEnd(name[i]) && Single(name, i, seen) == Some(s) && IsPrefix(name[s.next])
    ensures AllParameters(name, i, out, latest, seen)
         == AllParameters(name, s.next + 1, out + s.text, latest + s.text, seen)
  {
  }

  lemma RunsPast(name: string, i: nat, s: Cursor, out: string, latest: string, seen: seq<string>)
    requires i < |name| && !IsEnd(name[i]) && Single(name, i, seen) == Some(s) && s.next == |name|
    ensures AllParameters(name, i, out, latest, seen) == None
  {
  }

  /** How the loop goes on behind a text that left the index at `next`: the character there is lost.
      A prefix does not finish the parameter, and at the end of the name there is no result. */
  function GoneOn(name: string, text: string, next: nat, out: string, latest: string, seen: seq<string>): Option<Params>
    requires next <= |name|
  {
    if next == |name| then None
    else if IsPrefix(name[next]) then AllParameters(name, next + 1, out + text, latest + text, seen)
    else AllParameters(name, next + 1, out + text + (if IsEnd(At(name, next + 1)) then "" else ", "), "",
                       seen + [latest + text])
  }

  lemma TurnBy(name: string, i: nat, s: Cursor, out: string, latest: string, seen: seq<string>)
    requires i < |name| && i <= s.next <= |name| && !IsEnd(name[i]) && Single(name, i, seen) == Some(s)
    ensures AllParameters(name, i, out, latest, seen) == GoneOn(name, s.text, s.next, out, latest, seen)
  {
    if s.next == |name| {
      RunsPast(name, i, s, out, latest, seen);
    } else if IsPrefix(name[s.next]) {
      GoesOn(name, i, s, out, latest, seen);
    } else {
      Finishes(name, i, s, out, latest, seen, out + s.text + (if IsEnd(At(name, s.next + 1)) then "" else ", "),
               latest + s.text);
    }
  }

  // ----- Built-in types only -----

  lemma BuiltinTurn(name: string, i: nat, out: string, latest: string, seen: seq<string>, text: string)
    requires i < |name| && !IsEnd(name[i]) && CodeText(name[i]) == Some(text)
    ensures AllParameters(name, i, out, latest, seen)
         == if IsPrefix(name[i]) then AllParameters(name, i + 1, out + text, latest + text, seen)
            else AllParameters(name, i + 1, out + text + (if IsEnd(At(name, i + 1)) then "" else ", "), "",
                               seen + [latest + text])
  {
  }

  /** On lists of built-in types both readings agree, so all that is proved of one holds of the
      other. */
  lemma {:induction false} AgreesOnBuiltins(name: string, i: nat, out: string, latest: string, seen: seq<string>)
    requires i <= |name| && Parameters(name, i, out, latest, seen).Some?
    ensures AllParameters(name, i, out, latest, seen) == Parameters(name, i, out, latest, seen)
    decreases |name| - i
  {
    var c := At(name, i);
    if !IsEnd(c) {
      var text := CodeText(c).value;
      BuiltinTurn(name, i, out, latest, seen, text);
      if IsPrefix(c) {
        AgreesOnBuiltins(name, i + 1, out + text, latest + text, seen);
      } else {
        AgreesOnBuiltins(name, i + 1, out + text + (if IsEnd(At(name, i + 1)) then "" else ", "), "", seen + [latest + text]);
      }
    }
  }

  lemma DemangleAgrees(name: string)
    requires Demangle(name).Some?
    ensures DemangleAll(name) == Demangle(name)
  {
    if IsMangled(name) {
      var f := FunctionName(name).value;
      AgreesOnBuiltins(name, f.next, f.text + "(", "", []);
    }
  }

  // ----- Substitutions -----

  /** A number and its underscore are read back as that number. */
  lemma RowNumberReads(name: string, i: nat, digits: string, u: nat)
    requires AllDigits(digits) && u == i + |digits| && u < |name| && name[i..u] == digits && name[u] == '_'
    ensures RowNumber(name, i) == Some(Parsed(Value(digits), u))
  {
    DigitsEndIs(name, i, u);
  }

  /** A substitution prints the type that its number names, up to the first space, as a parameter of
      its own. */
  lemma SubstitutionReads(name: string, i: nat, digits: string, u: nat, out: string, seen: seq<string>)
    requires AllDigits(digits) && Value(digits) < |seen| && u == i + 1 + |digits| < |name|
    requires name[i] == 'S' && name[i + 1..u] == digits && name[u] == '_'
    ensures var text := UpToSpace(seen[Value(digits)]);
            AllParameters(name, i, out, "", seen)
            == AllParameters(name, u + 1, out + text + (if IsEnd(At(name, u + 1)) then "" else ", "), "", seen + [text])
  {
    RowNumberReads(name, i + 1, digits, u);
    var s := Cursor(UpToSpace(seen[Value(digits)]), u);
    assert "" + s.text == s.text;
    Finishes(name, i, s, out, "", seen, out + s.text + (if IsEnd(At(name, u + 1)) then "" else ", "), s.text);
  }

  /** It ends before the first space, or with the text. */
  lemma {:induction false} CutAtSpace(s: string)
    ensures var r := UpToSpace(s);
            ' ' !in r && |r| <= |s| && s[..|r|] == r && (|r| < |s| ==> s[|r|] == ' ')
  {
    if s != [] && s[0] != ' ' {
      CutAtSpace(s[1..]);
      assert s == [s[0]] + s[1..];
    }
  }

  lemma {:induction false} WholeWithoutSpace(s: string)
    ensures UpToSpace(s) == s <==> ' ' !in s
  {
    if s != [] && s[0] != ' ' {
      WholeWithoutSpace(s[1..]);
      assert s == [s[0]] + s[1..];
    }
  }

  lemma {:induction false} SpaceInPrefixes(prefixes: string)
    requires forall k :: 0 <= k < |prefixes| ==> IsPrefix(prefixes[k])
    ensures ' ' in PrefixText(prefixes) <==> 'K' in prefixes
  {
    if prefixes != [] {
      SpaceInPrefixes(prefixes[1..]);
      assert prefixes == [prefixes[0]] + prefixes[1..];
      SpaceInCode(prefixes[0]);
    }
  }

  lemma SpaceInCode(c: char)
    ensures CodeText(c).Some? ==> (' ' in CodeText(c).value <==> c == 'K' || c == 'x')
  {
    if c == 'K' {
      assert CodeText(c).value[5] == ' ';
    } else if c == 'x' {
      assert CodeText(c).value[4] == ' ';
    }
  }

  /** A substitution repeats the whole of a type if and only if the type has no const in it and is
      not `long long`. */
  lemma RepeatsWhole(t: Type)
    requires WellFormed(t)
    ensures UpToSpace(TypeText(t)) == TypeText(t) <==> 'K' !in t.prefixes && t.base != 'x'
  {
    WholeWithoutSpace(TypeText(t));
    SpaceInPrefixes(t.prefixes);
    SpaceInCode(t.base);
  }

  /** `S_` and `S0_` name two different types in the ABI (section 5.1, under Compression), and the
      same one here. */
  lemma FirstTwoAlike(a: string, i: nat, b: string, j: nat, seen: seq<string>)
    requires seen != [] && i + 1 < |a| && a[i] == 'S' && a[i + 1] == '_'
    requires j + 2 < |b| && b[j] == 'S' && b[j + 1] == '0' && b[j + 2] == '_'
    ensures Single(a, i, seen) == Some(Cursor(UpToSpace(seen[0]), i + 1))
    ensures Single(b, j, seen) == Some(Cursor(UpToSpace(seen[0]), j + 2))
  {
    assert a[i + 1..i + 1] == "" && b[j + 1..j + 2] == "0" && "0"[..0] == "";
    RowNumberReads(a, i + 1, "", i + 1);
    RowNumberReads(b, j + 1, "0", j + 2);
  }

  // ----- Class types -----

  lemma ClassReads(name: string, i: nat, p: string, next: nat, seen: seq<string>)
    requires Identifier(p) && StartsAt(name, i, Decimal(|p|) + p) && next == i + |Decimal(|p|) + p|
    ensures i < next <= |name| && !IsEnd(name[i]) && Single(name, i, seen) == Some(Cursor(p, next))
  {
    ComponentReads(name, i, p);
  }

  /** The character behind a class type is taken for part of it and lost: a prefix does not even
      finish the parameter. When there is none the source steps over the terminator and reads on
      past the end. */
  lemma ClassTypeSkips(name: string, i: nat, p: string, next: nat, out: string, latest: string, seen: seq<string>)
    requires Identifier(p) && StartsAt(name, i, Decimal(|p|) + p) && next == i + |Decimal(|p|) + p|
    ensures next <= |name| && AllParameters(name, i, out, latest, seen) == GoneOn(name, p, next, out, latest, seen)
  {
    ClassReads(name, i, p, next, seen);
    TurnBy(name, i, Cursor(p, next), out, latest, seen);
  }

  predicate AllCodes(codes: string) {
    forall k :: 0 <= k < |codes| ==> CodeText(codes[k]).Some?
  }

  lemma {:induction false} CodesOf(types: seq<Type>)
    requires forall k :: 0 <= k < |types| ==> WellFormed(types[k])
    ensures AllCodes(Codes(types))
  {
    if types != [] {
      assert WellFormed(types[0]);
      CodesOf(types[1..]);
    }
  }

  /** Whatever built-in types come before it, a class type that ends the name has no result. */
  lemma {:induction false} CodesThenClass(name: string, i: nat, j: nat, q: string, out: string, latest: string,
                                          seen: seq<string>)
    requires i <= j <= |name| && AllCodes(name[i..j])
    requires Identifier(q) && StartsAt(name, j, Decimal(|q|) + q) && j + |Decimal(|q|) + q| == |name|
    ensures AllParameters(name, i, out, latest, seen) == None
    decreases j - i
  {
    if i == j {
      ClassTypeSkips(name, j, q, |name|, out, latest, seen);
    } else {
      assert CodeText(name[i..j][0]).Some? && name[i + 1..j] == name[i..j][1..];
      var text := CodeText(name[i]).value;
      BuiltinTurn(name, i, out, latest, seen, text);
      if IsPrefix(name[i]) {
        CodesThenClass(name, i + 1, j, q, out + text, latest + text, seen);
      } else {
        CodesThenClass(name, i + 1, j, q, out + text + (if IsEnd(At(name, i + 1)) then "" else ", "), "",
                       seen + [latest + text]);
      }
    }
  }

  lemma CodesAndRest(name: string, i: nat, codes: string, e: string)
    requires i <= |name| && name[i..] == codes + e
    ensures i + |codes| + |e| == |name| && name[i..i + |codes|] == codes && StartsAt(name, i + |codes|, e)
  {
    assert name[i..i + |codes|] == name[i..][..|codes|];
    assert name[i + |codes|..i + |codes| + |e|] == name[i..][|codes|..];
  }

  lemma ClassAtEnd(name: string, f: Cursor, codes: string, q: string, e: string)
    requires IsMangled(name) && FunctionName(name) == Some(f) && f.next <= |name| && name[f.next..] == codes + e
    requires AllCodes(codes) && Identifier(q) && e == Decimal(|q|) + q
    ensures DemangleAll(name) == None
  {
    var j := f.next + |codes|;
    CodesAndRest(name, f.next, codes, e);
    CodesThenClass(name, f.next, j, q, f.text + "(", "", []);
  }

  /** So no function, plain or nested, is demangled whose last parameter is of class type, behind any
      built-in ones, when the name ends there. */
  lemma ClassTypeOverruns(p: string, types: seq<Type>, q: string)
    requires Identifier(p) && Identifier(q) && forall k :: 0 <= k < |types| ==> WellFormed(types[k])
    ensures DemangleAll("_Z" + (Decimal(|p|) + p) + (Codes(types) + (Decimal(|q|) + q))) == None
  {
    var d, e := Decimal(|p|) + p, Decimal(|q|) + q;
    var name := "_Z" + d + (Codes(types) + e);
    CodesOf(types);
    PlainLayout(d, Codes(types) + e, name);
    PlainName(name, p, 2 + |d|);
    ClassAtEnd(name, Cursor(p, 2 + |d|), Codes(types), q, e);
  }

  lemma NestedClassTypeOverruns(parts: seq<string>, types: seq<Type>, q: string)
    requires Identifiers(parts) && Identifier(q) && forall k :: 0 <= k < |types| ==> WellFormed(types[k])
    ensures DemangleAll("_ZN" + Encode(parts) + "E" + (Codes(types) + (Decimal(|q|) + q))) == None
  {
    var d, e := Encode(parts), Decimal(|q|) + q;
    var name := "_ZN" + d + "E" + (Codes(types) + e);
    CodesOf(types);
    NestedLayout(d, Codes(types) + e, name);
    UnmangleNested(name, 2, parts, 3 + |d|);
    ClassAtEnd(name, Cursor(NestedText(parts), 4 + |d|), Codes(types), q, e);
  }

  // ----- Unknown codes -----

  /** A code that is none of the loop's, such as that of a reference. */
  predicate Unknown(c: char) {
    !IsEnd(c) && CodeText(c).None? && c != 'S' && c != 'N' && !IsDigit(c)
  }

  /** An unknown code prints itself and everything behind it, and then that is read once more. */
  lemma UnknownCode(name: string, f: Cursor, types: seq<Type>, all: string)
    requires IsMangled(name) && FunctionName(name) == Some(f) && f.next < |name| && name[f.next..] == all
    requires (forall k :: 0 <= k < |types| ==> WellFormed(types[k])) && Unknown(all[0]) && all[1..] == Codes(types)
    ensures DemangleAll(name)
         == Some(f.text + "(" + all + (if types == [] then "" else ", ") + Join(Texts(types), ", ") + ")")
  {
    var i, out := f.next, f.text + "(";
    var after := out + all + (if types == [] then "" else ", ");
    UnknownLayout(name, i, types, all);
    EndOfTypes(name, i + 1, types, |name|);
    assert Single(name, i, []) == Some(Cursor(all, i));
    Finishes(name, i, Cursor(all, i), out, "", [], after, "" + all);
    ParametersRead(name, i + 1, types, |name|, after, [] + ["" + all]);
    AgreesOnBuiltins(name, i + 1, after, "", [] + ["" + all]);
    UnknownText(name, f, after + Join(Texts(types), ", "), [] + ["" + all] + Texts(types));
  }

  lemma UnknownLayout(name: string, i: nat, types: seq<Type>, all: string)
    requires i < |name| && name[i..] == all && all[1..] == Codes(types)
    ensures name[i] == all[0] && TypesSpelled(name, i + 1, types, |name|)
  {
    assert name[i + 1..] == all[1..];
    CodesToEnd(name, i + 1, types, Codes(types));
  }

  lemma CodesToEnd(name: string, i: nat, types: seq<Type>, codes: string)
    requires i <= |name| && codes == Codes(types) && name[i..] == codes
    ensures TypesSpelled(name, i, types, |name|)
  {
    assert codes + "" == codes;
    RestOfName(name, i, codes, "");
    CodesSpell(name, i, types, "");
  }

  lemma UnknownText(name: string, f: Cursor, out: string, seen: seq<string>)
    requires IsMangled(name) && FunctionName(name) == Some(f) && f.next <= |name|
    requires AllParameters(name, f.next, f.text + "(", "", []) == Some(Params(out, |name|, seen))
    ensures DemangleAll(name) == Some(out + ")")
  {
    assert name[|name|..] == "" && out + ")" + "" == out + ")";
  }

  lemma UnknownCodePrintsRest(p: string, c: char, types: seq<Type>)
    requires Identifier(p) && Unknown(c) && forall k :: 0 <= k < |types| ==> WellFormed(types[k])
    ensures DemangleAll("_Z" + (Decimal(|p|) + p) + ([c] + Codes(types)))
         == Some(p + "(" + ([c] + Codes(types)) + (if types == [] then "" else ", ") + Join(Texts(types), ", ") + ")")
  {
    var d, all := Decimal(|p|) + p, [c] + Codes(types);
    var name := "_Z" + d + all;
    PlainLayout(d, all, name);
    PlainName(name, p, 2 + |d|);
    assert all[0] == c && all[1..] == Codes(types);
    UnknownCode(name, Cursor(p, 2 + |d|), types, all);
  }
}
