/** The demangler on the buffers that the source gives it: 128 characters for the text, 16 for a
    length, 64 for the latest type and 64 rows of 16 for the types seen. */
module DemangleBuffers {
  import opened Options
  import opened Demangler

  const BUFFER: nat := 128
  const DIGITS: nat := 16
  const LATEST: nat := 64
  const ROWS: nat := 64
  const ROW: nat := 16

  // ----- Every write inside its buffer -----

  /** The digits and the terminator behind them. */
  predicate DigitsFit(name: string, i: nat)
    requires i <= |name|
  {
    DigitsEnd(name, i) - i < DIGITS
  }

  /** The characters behind a length, copied to position j. */
  predicate ComponentFits(name: string, i: nat, j: nat)
    requires i <= |name|
  {
    DigitsFit(name, i) && Component(name, i).Some? && j + |Component(name, i).value.text| <= BUFFER
  }

  /** The component loop writing from position j on, and its terminator. */
  predicate ComponentsFit(name: string, i: nat, j: nat)
    requires i <= |name|
    decreases |name| - i
  {
    if At(name, i) == 'E' then j < BUFFER
    else
      && ComponentFits(name, i, j)
      && var c := Component(name, i).value;
         && i < c.next
         && var k := j + |c.text| + if At(name, c.next) != 'E' then 2 else 0;
            k <= BUFFER && ComponentsFit(name, c.next, k)
  }

  predicate UnmangleFits(name: string, i: nat)
    requires i <= |name|
  {
    var nested := At(name, i) == 'N';
    var start := if nested then i + 1 else i;
    && ComponentFits(name, start, 0)
    && var c := Component(name, start).value;
       if nested then |c.text| + 2 <= BUFFER && ComponentsFit(name, c.next, |c.text| + 2) else |c.text| < BUFFER
  }

  /** The parameter loop writing the text from position j on, the latest type from position
      `latest` on, and the finished types from row `row` on. */
  predicate ParametersFit(name: string, i: nat, j: nat, latest: nat, row: nat)
    requires i <= |name|
    decreases |name| - i
  {
    var c := At(name, i);
    IsEnd(c) ||
    (&& CodeText(c).Some?
     && var n := |CodeText(c).value|;
        && j + n <= BUFFER && latest + n <= LATEST
        && if IsPrefix(c) then ParametersFit(name, i + 1, j + n, latest + n, row)
           else
             && row < ROWS && latest + n < ROW
             && var k := j + n + if IsEnd(At(name, i + 1)) then 0 else 2;
                k <= BUFFER && ParametersFit(name, i + 1, k, 0, row + 1))
  }

  predicate NameFits(name: string)
    requires IsMangled(name)
  {
    if At(name, 2) == 'N' then UnmangleFits(name, 2) else ComponentFits(name, 2, 0)
  }

  /** Every write of demangling a symbol lies inside the buffer it goes to. */
  predicate SymbolFits(name: string)
    requires Demangle(name).Some?
  {
    |Demangle(name).value| <= BUFFER &&
    (IsMangled(name) ==>
       var f := FunctionName(name).value;
       && NameFits(name) && |f.text| < BUFFER && ParametersFit(name, f.next, |f.text| + 1, 0, 0))
  }

  // ----- When they do -----

  lemma {:induction false} DecimalShort(n: nat)
    requires n <= BUFFER
    ensures |Decimal(n)| <= 3
    decreases n
  {
    if n >= 10 {
      DecimalShort(n / 10);
      if n >= 100 {
        assert |Decimal(n / 10 / 10)| == 1;
      } else {
        assert |Decimal(n / 10)| == 1;
      }
    }
  }

  /** A part that fits the buffer has a length that fits its digits. */
  lemma SpelledComponentFits(name: string, i: nat, p: string, j: nat)
    requires Identifier(p) && StartsAt(name, i, Decimal(|p|) + p)
    ensures ComponentFits(name, i, j) <==> j + |p| <= BUFFER
  {
    ComponentReads(name, i, p);
    if |p| <= BUFFER {
      DecimalShort(|p|);
    }
  }

  lemma ComponentsFitUnfold(name: string, i: nat, p: string, next: nat, j: nat, k: nat)
    requires i < next <= |name| && At(name, i) != 'E' && Component(name, i) == Some(Cursor(p, next))
    requires k == j + |p| + if At(name, next) != 'E' then 2 else 0
    ensures ComponentsFit(name, i, j) <==> ComponentFits(name, i, j) && k <= BUFFER && ComponentsFit(name, next, k)
  {
  }

  lemma JoinLength(parts: seq<string>, separator: string)
    requires parts != []
    ensures |Join(parts, separator)|
         == |parts[0]| + (if parts[1..] == [] then 0 else |separator|) + |Join(parts[1..], separator)|
  {
  }

  /** The component loop on a spelled name: what it prints and a terminator have to fit. */
  lemma {:induction false} SpelledComponentsFit(name: string, i: nat, parts: seq<string>, end: nat, j: nat)
    requires Identifiers(parts) && Spelled(name, i, parts, end) && At(name, end) == 'E'
    ensures i <= |name| && (ComponentsFit(name, i, j) <==> j + |Join(parts, "::")| < BUFFER)
    decreases |parts|
  {
    if parts != [] {
      var p, rest := parts[0], parts[1..];
      var next := i + |Decimal(|p|) + p|;
      SpelledTail(name, i, parts, end, next);
      ComponentReads(name, i, p);
      SpelledComponentFits(name, i, p, j);
      EndOfParts(name, next, rest, end);
      var k := j + |p| + if rest == [] then 0 else 2;
      SpelledComponentsFit(name, next, rest, end, k);
      ComponentsFitUnfold(name, i, p, next, j, k);
      JoinLength(parts, "::");
    }
  }

  lemma NestedNameFits(name: string, i: nat, parts: seq<string>, end: nat)
    requires i < |name| && name[i] == 'N' && Identifiers(parts) && At(name, end) == 'E'
    requires StartsAt(name, i + 1, Encode(parts)) && end == i + 1 + |Encode(parts)|
    ensures UnmangleFits(name, i) <==> |NestedText(parts)| < BUFFER
  {
    EncodeSpells(name, i + 1, parts, end);
    if parts == [] {
      EmptyNameFits(name, i);
    } else {
      var next := i + 1 + |Decimal(|parts[0]|) + parts[0]|;
      NestedTextStep(parts);
      SpelledNameFits(name, i, parts, end, next);
    }
  }

  lemma EmptyNameFits(name: string, i: nat)
    requires i < |name| && name[i] == 'N' && At(name, i + 1) == 'E'
    ensures UnmangleFits(name, i)
  {
    NothingToParse(name, i + 1);
    DigitsEndIs(name, i + 1, i + 1);
  }

  lemma UnmangleFitsUnfold(name: string, i: nat, p: string, next: nat)
    requires i < |name| && name[i] == 'N' && next <= |name| && Component(name, i + 1) == Some(Cursor(p, next))
    ensures UnmangleFits(name, i)
       <==> ComponentFits(name, i + 1, 0) && |p| + 2 <= BUFFER && ComponentsFit(name, next, |p| + 2)
  {
  }

  lemma SpelledNameFits(name: string, i: nat, parts: seq<string>, end: nat, next: nat)
    requires i < |name| && name[i] == 'N' && Identifiers(parts) && At(name, end) == 'E' && parts != []
    requires Spelled(name, i + 1, parts, end) && next == i + 1 + |Decimal(|parts[0]|) + parts[0]|
    ensures UnmangleFits(name, i) <==> |parts[0] + "::" + Join(parts[1..], "::")| < BUFFER
  {
    SpelledTail(name, i + 1, parts, end, next);
    SpelledComponentsFit(name, next, parts[1..], end, |parts[0]| + 2);
    FirstPartFits(name, i, parts[0], next);
  }

  lemma FirstPartFits(name: string, i: nat, p: string, next: nat)
    requires i < |name| && name[i] == 'N' && Identifier(p)
    requires StartsAt(name, i + 1, Decimal(|p|) + p) && next == i + 1 + |Decimal(|p|) + p|
    ensures next <= |name|
    ensures UnmangleFits(name, i) <==> |p| + 2 <= BUFFER && ComponentsFit(name, next, |p| + 2)
  {
    ComponentReads(name, i + 1, p);
    SpelledComponentFits(name, i + 1, p, 0);
    UnmangleFitsUnfold(name, i, p, next);
  }

  lemma {:induction false} PrefixesFit(name: string, i: nat, prefixes: string, j: nat, latest: nat, row: nat)
    requires forall k :: 0 <= k < |prefixes| ==> IsPrefix(prefixes[k])
    requires StartsAt(name, i, prefixes) && j <= BUFFER && latest <= LATEST
    ensures ParametersFit(name, i, j, latest, row) <==>
            (var t := PrefixText(prefixes);
             && j + |t| <= BUFFER && latest + |t| <= LATEST
             && ParametersFit(name, i + |prefixes|, j + |t|, latest + |t|, row))
    decreases |prefixes|
  {
    if prefixes != [] {
      var n, rest := |CodeText(prefixes[0]).value|, prefixes[1..];
      assert prefixes == [prefixes[0]] + rest;
      SplitAt(name, i, [prefixes[0]], rest);
      assert name[i] == name[i..i + 1][0] == prefixes[0];
      if j + n <= BUFFER && latest + n <= LATEST {
        PrefixesFit(name, i + 1, rest, j + n, latest + n, row);
      }
    }
  }

  /** One parameter: its text has to fit the buffer and, with a terminator, its row. */
  lemma TypeFits(name: string, i: nat, t: Type, next: nat, j: nat, row: nat, k: nat)
    requires WellFormed(t) && StartsAt(name, i, t.prefixes) && next == i + |t.prefixes| + 1
    requires next <= |name| && name[next - 1] == t.base && j <= BUFFER
    requires k == j + |TypeText(t)| + if IsEnd(At(name, next)) then 0 else 2
    ensures ParametersFit(name, i, j, 0, row)
       <==> row < ROWS && |TypeText(t)| < ROW && k <= BUFFER && ParametersFit(name, next, k, 0, row + 1)
  {
    PrefixesFit(name, i, t.prefixes, j, 0, row);
  }

  predicate AllFitRows(types: seq<Type>)
    requires forall k :: 0 <= k < |types| ==> WellFormed(types[k])
  {
    forall k :: 0 <= k < |types| ==> |TypeText(types[k])| < 16
  }

  lemma {:induction false} TypesFit(name: string, i: nat, types: seq<Type>, end: nat, j: nat, row: nat)
    requires (forall k :: 0 <= k < |types| ==> WellFormed(types[k])) && TypesSpelled(name, i, types, end)
    requires j <= BUFFER && row <= ROWS
    ensures i <= |name|
    ensures ParametersFit(name, i, j, 0, row)
       <==> j + |Join(Texts(types), ", ")| <= BUFFER && row + |types| <= ROWS && AllFitRows(types)
    decreases |types|
  {
    if types != [] {
      var t, more := types[0], types[1..];
      var next := i + |t.prefixes| + 1;
      EndOfTypes(name, i, types, end);
      EndOfTypes(name, next, more, end);
      var k := j + |TypeText(t)| + if more == [] then 0 else 2;
      TypeFits(name, i, t, next, j, row, k);
      JoinLength(Texts(types), ", ");
      if k <= BUFFER && row < ROWS {
        TypesFit(name, next, more, end, k, row + 1);
      }
      assert AllFitRows(types) <==> |TypeText(t)| < ROW && AllFitRows(more);
    }
  }

  lemma ShortestType(t: Type)
    requires WellFormed(t)
    ensures 2 <= |TypeText(t)|
  {
  }

  /** A type and its separator take four characters at least. */
  lemma {:induction false} ManyTypesAreLong(types: seq<Type>)
    requires forall k :: 0 <= k < |types| ==> WellFormed(types[k])
    ensures 4 * |types| <= |Join(Texts(types), ", ")| + 2
    decreases |types|
  {
    if types != [] {
      ShortestType(types[0]);
      JoinLength(Texts(types), ", ");
      ManyTypesAreLong(types[1..]);
    }
  }

  lemma TailFits(name: string, i: nat, types: seq<Type>, rest: string, text: string)
    requires forall k :: 0 <= k < |types| ==> WellFormed(types[k])
    requires i <= |name| && name[i..] == Codes(types) + rest && IsEnd(At(rest, 0))
    requires |Printed(text, types, rest)| <= BUFFER
    ensures |text| < BUFFER && (ParametersFit(name, i, |text| + 1, 0, 0) <==> AllFitRows(types))
  {
    RestOfName(name, i, Codes(types), rest);
    CodesSpell(name, i, types, rest);
    TypesFit(name, i, types, i + |Codes(types)|, |text| + 1, 0);
    ManyTypesAreLong(types);
  }

  lemma SpelledSymbolFits(name: string, f: Cursor, types: seq<Type>, rest: string)
    requires IsMangled(name) && FunctionName(name) == Some(f) && (|f.text| < BUFFER ==> NameFits(name))
    requires (forall k :: 0 <= k < |types| ==> WellFormed(types[k])) && IsEnd(At(rest, 0))
    requires f.next <= |name| && name[f.next..] == Codes(types) + rest
    requires Demangle(name) == Some(Printed(f.text, types, rest))
    ensures SymbolFits(name) <==> |Printed(f.text, types, rest)| <= BUFFER && AllFitRows(types)
  {
    if |Printed(f.text, types, rest)| <= BUFFER {
      TailFits(name, f.next, types, rest, f.text);
    }
  }

  lemma NestedSymbolLayout(parts: seq<string>, types: seq<Type>, rest: string, name: string, e: string)
    requires Identifiers(parts) && name == NestedSymbol(parts, types, rest) && e == Encode(parts)
    ensures IsMangled(name) && 4 + |e| <= |name| && name[4 + |e|..] == Codes(types) + rest
    ensures |NestedText(parts)| < BUFFER ==> NameFits(name)
  {
    NestedLayout(e, Codes(types) + rest, name);
    NestedNameFits(name, 2, parts, 3 + |e|);
  }

  lemma PlainSymbolLayout(p: string, types: seq<Type>, rest: string, name: string, d: string)
    requires Identifier(p) && name == PlainSymbol(p, types, rest) && d == Decimal(|p|) + p
    ensures IsMangled(name) && 2 + |d| <= |name| && name[2 + |d|..] == Codes(types) + rest
    ensures |p| < BUFFER ==> NameFits(name)
  {
    PlainLayout(d, Codes(types) + rest, name);
    ComponentReads(name, 2, p);
    SpelledComponentFits(name, 2, p, 0);
  }

  lemma DigitsNoNul(s: string)
    requires AllDigits(s)
    ensures '\0' !in s
  {
    assert forall i :: 0 <= i < |s| ==> IsDigit(s[i]);
  }

  lemma {:induction false} EncodeNoNul(parts: seq<string>)
    requires Identifiers(parts)
    ensures '\0' !in Encode(parts)
  {
    if parts != [] {
      DigitsNoNul(Decimal(|parts[0]|));
      EncodeNoNul(parts[1..]);
      assert Identifier(parts[0]);
    }
  }

  lemma {:induction false} CodesNoNul(types: seq<Type>)
    requires forall k :: 0 <= k < |types| ==> WellFormed(types[k])
    ensures '\0' !in Codes(types)
  {
    if types != [] {
      assert WellFormed(types[0]);
      CodesNoNul(types[1..]);
    }
  }

  lemma NestedNoNul(parts: seq<string>, types: seq<Type>, rest: string, name: string)
    requires Identifiers(parts) && (forall k :: 0 <= k < |types| ==> WellFormed(types[k])) && '\0' !in rest
    requires name == NestedSymbol(parts, types, rest)
    ensures '\0' !in name
  {
    EncodeNoNul(parts);
    CodesNoNul(types);
  }

  lemma PlainNoNul(p: string, types: seq<Type>, rest: string, name: string)
    requires Identifier(p) && (forall k :: 0 <= k < |types| ==> WellFormed(types[k])) && '\0' !in rest
    requires name == PlainSymbol(p, types, rest)
    ensures '\0' !in name
  {
    DigitsNoNul(Decimal(|p|));
    CodesNoNul(types);
  }

  /** The exact bounds: demangling a nested function stays inside all buffers if and only if the
      text is at most 128 characters long and the text of each type shorter than 16. */
  lemma NestedFits(parts: seq<string>, types: seq<Type>, rest: string, name: string)
    requires Identifiers(parts) && (forall k :: 0 <= k < |types| ==> WellFormed(types[k])) && Trailer(rest)
    requires name == NestedSymbol(parts, types, rest)
    ensures Demangle(name).Some? && '\0' !in name
    ensures SymbolFits(name) <==> |Printed(NestedText(parts), types, rest)| <= 128 && AllFitRows(types)
  {
    NestedNoNul(parts, types, rest, name);
    DemangleNested(parts, types, rest);
    NestedSymbolLayout(parts, types, rest, name, Encode(parts));
    SpelledSymbolFits(name, Cursor(NestedText(parts), 4 + |Encode(parts)|), types, rest);
  }

  lemma PlainFits(p: string, types: seq<Type>, rest: string, name: string)
    requires Identifier(p) && (forall k :: 0 <= k < |types| ==> WellFormed(types[k])) && Trailer(rest)
    requires name == PlainSymbol(p, types, rest)
    ensures Demangle(name).Some? && '\0' !in name
    ensures SymbolFits(name) <==> |Printed(p, types, rest)| <= 128 && AllFitRows(types)
  {
    PlainNoNul(p, types, rest, name);
    DemanglePlain(p, types, rest);
    PlainSymbolLayout(p, types, rest, name, Decimal(|p|) + p);
    SpelledSymbolFits(name, Cursor(p, 2 + |Decimal(|p|) + p|), types, rest);
  }

  /** A name that is copied as it is has to fit as well. */
  lemma KeptNameFits(name: string)
    requires !("_Z" <= name)
    ensures Demangle(name).Some? && (SymbolFits(name) <==> |name| <= 128)
  {
    PlainNamesKept(name);
    MangledIs(name);
  }

  // ----- The missing terminator -----

  /** What a reader of the buffer takes for the text: the characters before the first terminator,
      and nothing when there is none in the buffer. */
  function CString(s: string): Option<string> {
    if s == [] then None
    else if s[0] == '\0' then Some("")
    else match CString(s[1..])
         case None => None
         case Some(t) => Some([s[0]] + t)
  }

  /** The buffer with a text written at position j. */
  function Put(s: string, j: nat, text: string): (r: string)
    requires j + |text| <= |s|
    ensures |r| == |s|
  {
    s[..j] + text + s[j + |text|..]
  }

  lemma {:induction false} TerminatedReadsBack(text: string, tail: string)
    requires '\0' !in text
    ensures CString(text + tail) == Some(text) <==> tail != [] && tail[0] == '\0'
    decreases |text|
  {
    if text == [] {
      assert text + tail == tail;
    } else {
      assert text == [text[0]] + text[1..];
      assert (text + tail)[1..] == text[1..] + tail;
      TerminatedReadsBack(text[1..], tail);
    }
  }

  /** The source writes no terminator: a text reads back from the buffer if and only if the memory
      behind it was zero before. */
  lemma ReadsBack(was: string, text: string)
    requires |text| <= |was| && '\0' !in text
    ensures CString(Put(was, 0, text)) == Some(text) <==> |text| < |was| && was[|text|] == '\0'
  {
    assert Put(was, 0, text) == text + was[|text|..];
    TerminatedReadsBack(text, was[|text|..]);
  }

  lemma {:induction false} ComponentsNoNul(name: string, i: nat, out: string)
    requires i <= |name| && '\0' !in name && '\0' !in out && Components(name, i, out).Some?
    ensures '\0' !in Components(name, i, out).value.text
    decreases |name| - i
  {
    if At(name, i) != 'E' {
      var c := Component(name, i).value;
      ComponentsNoNul(name, c.next, out + c.text + if At(name, c.next) != 'E' then "::" else "");
    }
  }

  lemma UnmangleNoNul(name: string, i: nat)
    requires i <= |name| && '\0' !in name && Unmangle(name, i).Some?
    ensures '\0' !in Unmangle(name, i).value.text
  {
    if At(name, i) == 'N' {
      var c := Component(name, i + 1).value;
      ComponentsNoNul(name, c.next, c.text + "::");
    }
  }

  lemma CodeNoNul(c: char)
    ensures CodeText(c).Some? ==> '\0' !in CodeText(c).value
  {
  }

  lemma {:induction false} ParametersNoNul(name: string, i: nat, out: string, latest: string, seen: seq<string>)
    requires i <= |name| && '\0' !in out && Parameters(name, i, out, latest, seen).Some?
    ensures '\0' !in Parameters(name, i, out, latest, seen).value.text
    decreases |name| - i
  {
    var c := At(name, i);
    if !IsEnd(c) {
      var text := CodeText(c).value;
      CodeNoNul(c);
      if IsPrefix(c) {
        ParametersNoNul(name, i + 1, out + text, latest + text, seen);
      } else {
        ParametersNoNul(name, i + 1, out + text + (if IsEnd(At(name, i + 1)) then "" else ", "), "", seen + [latest + text]);
      }
    }
  }

  /** Demangling puts no terminator into the text. */
  lemma DemangleNoNul(name: string)
    requires '\0' !in name && Demangle(name).Some?
    ensures '\0' !in Demangle(name).value
  {
    if IsMangled(name) {
      var f := FunctionName(name).value;
      if At(name, 2) == 'N' {
        UnmangleNoNul(name, 2);
      }
      assert '\0' !in f.text;
      ParametersNoNul(name, f.next, f.text + "(", "", []);
    }
  }

  // ----- The loops -----

  lemma PutAfter(s: string, text: string, more: string)
    requires |text| + |more| <= |s|
    ensures Put(Put(s, 0, text), |text|, more) == Put(s, 0, text + more)
  {
  }

  /** One more character of a text that is being written. */
  lemma PutNext(s: string, j: nat, text: string, k: nat)
    requires j + |text| <= |s| && k < |text|
    ensures Put(s, j, text[..k])[j + k := text[k]] == Put(s, j, text[..k + 1])
  {
  }

  method CopyTo(buffer: array<char>, j: nat, text: string)
    requires j + |text| <= buffer.Length
    modifies buffer
    ensures buffer[..] == Put(old(buffer[..]), j, text)
  {
    var k := 0;
    while k < |text|
      invariant k <= |text| && buffer[..] == Put(old(buffer[..]), j, text[..k])
    {
      PutNext(old(buffer[..]), j, text, k);
      buffer[j + k] := text[k];
      k := k + 1;
    }
    assert text[..k] == text;
  }

  /** Copies behind what the buffer already holds. */
  method Append(buffer: array<char>, ghost was: string, ghost before: string, j: nat, text: string)
    requires |was| == buffer.Length && j == |before| && j + |text| <= buffer.Length
    requires buffer[..] == Put(was, 0, before)
    modifies buffer
    ensures buffer[..] == Put(was, 0, before + text)
  {
    CopyTo(buffer, j, text);
    PutAfter(was, before, text);
  }

  method Atoi(s: array<char>, ghost k: nat) returns (n: nat)
    requires k < s.Length && AllDigits(s[..k]) && s[k] == '\0'
    ensures n == Value(s[..k])
  {
    assert forall m :: 0 <= m < k ==> s[m] == s[..k][m];
    n := 0;
    var i := 0;
    while '0' <= s[i] <= '9'
      invariant i <= k && n == Value(s[..i])
      decreases k - i
    {
      assert s[..i + 1][..i] == s[..i];
      n := 10 * n + (s[i] as nat - '0' as nat);
      i := i + 1;
    }
  }

  /** Stops at the first character that is no digit, and gives the digits' value. */
  method ParseFunctionLength(name: string, start: nat, lengthStr: array<char>) returns (length: nat, i: nat)
    requires start <= |name| && lengthStr.Length == DIGITS && DigitsFit(name, start)
    modifies lengthStr
    ensures Parsed(length, i) == ParseLength(name, start)
  {
    i := start;
    var k := 0;
    while '0' <= At(name, i) <= '9'
      invariant start <= i <= |name| && DigitsEnd(name, i) == DigitsEnd(name, start)
      invariant k == i - start < DIGITS && lengthStr[..k] == name[start..i]
      decreases |name| - i
    {
      lengthStr[k] := name[i];
      i, k := i + 1, k + 1;
    }
    lengthStr[k] := '\0';
    assert lengthStr[..k] == name[start..i];
    length := Atoi(lengthStr, k);
  }

  /** A length, and the characters behind it copied to position j. */
  method CopyComponent(buffer: array<char>, ghost was: string, ghost before: string, j: nat, name: string, start: nat,
                       sizeStr: array<char>) returns (length: nat, i: nat)
    requires start <= |name| && ComponentFits(name, start, j) && sizeStr.Length == DIGITS && sizeStr != buffer
    requires |was| == buffer.Length == BUFFER && j == |before| <= BUFFER && buffer[..] == Put(was, 0, before)
    modifies buffer, sizeStr
    ensures var c := Component(name, start).value;
            i == c.next && length == |c.text| && buffer[..] == Put(was, 0, before + c.text)
  {
    length, i := ParseFunctionLength(name, start, sizeStr);
    Append(buffer, was, before, j, name[i..i + length]);
    i := i + length;
  }

  method Separate(buffer: array<char>, ghost was: string, ghost before: string, j: nat, more: bool) returns (k: nat)
    requires |was| == buffer.Length && j == |before| && j + (if more then 2 else 0) <= buffer.Length
    requires buffer[..] == Put(was, 0, before)
    modifies buffer
    ensures var text := before + if more then "::" else "";
            k == |text| && buffer[..] == Put(was, 0, text)
  {
    k := j;
    assert before + "" == before;
    if more {
      Append(buffer, was, before, j, "::");
      k := k + 2;
    }
  }

  lemma ComponentsTurn(name: string, i: nat, text: string)
    requires i <= |name| && At(name, i) != 'E' && Components(name, i, text).Some? && ComponentsFit(name, i, |text|)
    ensures Component(name, i).Some?
    ensures var c := Component(name, i).value;
            var after := text + c.text + if At(name, c.next) != 'E' then "::" else "";
            && i < c.next <= |name| && ComponentFits(name, i, |text|) && |after| <= BUFFER
            && Components(name, c.next, after) == Components(name, i, text) && ComponentsFit(name, c.next, |after|)
  {
  }

  /** One turn of the component loop. */
  method CopyNext(buffer: array<char>, ghost was: string, ghost text: string, j: nat, name: string, i: nat,
                  sizeStr: array<char>) returns (k: nat, next: nat, ghost after: string)
    requires i <= |name| && At(name, i) != 'E' && sizeStr.Length == DIGITS && sizeStr != buffer
    requires j == |text| && Components(name, i, text).Some? && ComponentsFit(name, i, j)
    requires |was| == buffer.Length == BUFFER && |text| <= BUFFER && buffer[..] == Put(was, 0, text)
    modifies buffer, sizeStr
    ensures i < next <= |name| && k == |after| <= BUFFER && buffer[..] == Put(was, 0, after)
    ensures Components(name, next, after) == Components(name, i, text) && ComponentsFit(name, next, k)
  {
    ComponentsTurn(name, i, text);
    ghost var c := Component(name, i).value;
    var length;
    length, next := CopyComponent(buffer, was, text, j, name, i, sizeStr);
    k := Separate(buffer, was, text + c.text, j + length, At(name, next) != 'E');
    after := text + c.text + if At(name, next) != 'E' then "::" else "";
  }

  /** The components behind the first one, up to the end of the name. */
  method CopyRest(buffer: array<char>, ghost was: string, ghost text: string, start: nat, name: string, first: nat,
                  sizeStr: array<char>) returns (j: nat, i: nat)
    requires first <= |name| && sizeStr.Length == DIGITS && sizeStr != buffer
    requires start == |text| && Components(name, first, text).Some? && ComponentsFit(name, first, start)
    requires |was| == buffer.Length == BUFFER && |text| <= BUFFER && buffer[..] == Put(was, 0, text)
    modifies buffer, sizeStr
    ensures var c := Components(name, first, text).value;
            i == c.next && j == |c.text| < BUFFER && buffer[..] == Put(was, 0, c.text)
  {
    j, i := start, first;
    ghost var now := text;
    while At(name, i) != 'E'
      invariant i <= |name| && j == |now| <= BUFFER && buffer[..] == Put(was, 0, now)
      invariant Components(name, i, now) == Components(name, first, text) && ComponentsFit(name, i, j)
      decreases |name| - i
    {
      j, i, now := CopyNext(buffer, was, now, j, name, i, sizeStr);
    }
    i := i + 1;
  }

  /** Requires a name on which the source neither reads past the end nor loops for ever. */
  method UnmangleName(buffer: array<char>, name: string, start: nat) returns (i: nat)
    requires start <= |name| && Unmangle(name, start).Some? && buffer.Length == BUFFER && UnmangleFits(name, start)
    modifies buffer
    ensures var c := Unmangle(name, start).value;
            i == c.next && |c.text| < BUFFER && buffer[..] == Put(old(buffer[..]), 0, c.text + "\0")
  {
    ghost var was := buffer[..];
    var sizeStr := new char[DIGITS];
    i := start;
    var nested := At(name, i) == 'N';
    if nested {
      i := i + 1;
    }
    var j;
    ghost var text := Component(name, i).value.text;
    assert Put(was, 0, "") == was && "" + text == text;
    j, i := CopyComponent(buffer, was, "", 0, name, i, sizeStr);
    if nested {
      j := Separate(buffer, was, text, j, true);
      j, i := CopyRest(buffer, was, text + "::", j, name, i, sizeStr);
    }
    text := Unmangle(name, start).value.text;
    Append(buffer, was, text, j, "\0");
  }

  /** Copies a text behind what the buffer holds and behind the latest type at once. */
  method AppendToBuffer(buffer: array<char>, latestType: array<char>, ghost was: string, ghost out: string,
                        ghost latest: string, j: nat, size: nat, text: string)
    requires buffer != latestType && |was| == buffer.Length && j == |out| && size == |latest|
    requires j + |text| <= buffer.Length && size + |text| <= latestType.Length
    requires buffer[..] == Put(was, 0, out) && latestType[..size] == latest
    modifies buffer, latestType
    ensures buffer[..] == Put(was, 0, out + text) && latestType[..size + |text|] == latest + text
  {
    ghost var first, second := buffer[..], latestType[..];
    var k := 0;
    while k < |text|
      invariant k <= |text| && buffer[..] == Put(first, j, text[..k]) && latestType[..] == Put(second, size, text[..k])
    {
      PutNext(first, j, text, k);
      PutNext(second, size, text, k);
      buffer[j + k] := text[k];
      latestType[size + k] := text[k];
      k := k + 1;
    }
    assert text[..k] == text;
    PutAfter(was, out, text);
  }

  /** A row holds a type that was seen, with a terminator behind it. */
  ghost predicate RowHolds(oldParams: array2<char>, row: nat, text: string)
    requires row < oldParams.Length0
    reads oldParams
  {
    && |text| < oldParams.Length1 && oldParams[row, |text|] == '\0'
    && forall m :: 0 <= m < |text| ==> oldParams[row, m] == text[m]
  }

  ghost predicate Remembers(oldParams: array2<char>, seen: seq<string>)
    reads oldParams
  {
    |seen| <= oldParams.Length0 && forall k :: 0 <= k < |seen| ==> RowHolds(oldParams, k, seen[k])
  }

  method StoreRow(oldParams: array2<char>, row: nat, latestType: array<char>, size: nat, ghost seen: seq<string>)
    requires row == |seen| < oldParams.Length0 && size < oldParams.Length1 && size <= latestType.Length
    requires Remembers(oldParams, seen)
    modifies oldParams
    ensures Remembers(oldParams, seen + [latestType[..size]])
  {
    oldParams[row, size] := '\0';
    var m := 0;
    while m < size
      invariant m <= size && oldParams[row, size] == '\0' && Remembers(oldParams, seen)
      invariant forall l :: 0 <= l < m ==> oldParams[row, l] == latestType[l]
    {
      oldParams[row, m] := latestType[m];
      m := m + 1;
    }
    assert RowHolds(oldParams, row, latestType[..size]);
  }

  lemma ParametersTurn(name: string, i: nat, out: string, latest: string, seen: seq<string>)
    requires i <= |name| && !IsEnd(At(name, i)) && Parameters(name, i, out, latest, seen).Some?
    requires ParametersFit(name, i, |out|, |latest|, |seen|)
    ensures i < |name| && CodeText(name[i]).Some?
    ensures var text := CodeText(name[i]).value;
            var end := if IsEnd(At(name, i + 1)) then "" else ", ";
            && |out + text| <= BUFFER && |latest + text| <= LATEST
            && if IsPrefix(name[i]) then
                 && Parameters(name, i + 1, out + text, latest + text, seen) == Parameters(name, i, out, latest, seen)
                 && ParametersFit(name, i + 1, |out + text|, |latest + text|, |seen|)
               else
                 && |seen| < ROWS && |latest + text| < ROW && |out + text + end| <= BUFFER
                 && Parameters(name, i + 1, out + text + end, "", seen + [latest + text])
                    == Parameters(name, i, out, latest, seen)
                 && ParametersFit(name, i + 1, |out + text + end|, 0, |seen| + 1)
  {
  }

  /** Keeps a finished type in its row, and writes the separator when another follows. */
  method FinishParameter(buffer: array<char>, ghost was: string, ghost out: string, j: nat, more: bool,
                         oldParams: array2<char>, row: nat, latestType: array<char>, size: nat,
                         ghost seen: seq<string>) returns (k: nat)
    requires |was| == buffer.Length && j == |out| && j + (if more then 2 else 0) <= buffer.Length
    requires buffer[..] == Put(was, 0, out) && buffer != latestType
    requires row == |seen| < oldParams.Length0 && size < oldParams.Length1 && size <= latestType.Length
    requires Remembers(oldParams, seen)
    modifies buffer, oldParams
    ensures var text := out + if more then ", " else "";
            k == |text| && buffer[..] == Put(was, 0, text)
    ensures Remembers(oldParams, seen + [latestType[..size]])
  {
    StoreRow(oldParams, row, latestType, size, seen);
    k := j;
    assert out + "" == out;
    if more {
      Append(buffer, was, out, j, ", ");
      k := k + 2;
    }
  }

  /** The parameter loop behind the text `before`. */
  method DemangleParameters(buffer: array<char>, ghost was: string, ghost before: string, start: nat, name: string,
                            first: nat, oldParams: array2<char>, latestType: array<char>)
    returns (j: nat, i: nat, rows: nat)
    requires first <= |name| && start == |before| <= BUFFER && Parameters(name, first, before, "", []).Some?
    requires ParametersFit(name, first, start, 0, 0)
    requires |was| == buffer.Length == BUFFER && buffer[..] == Put(was, 0, before) && latestType.Length == LATEST
    requires oldParams.Length0 == ROWS && oldParams.Length1 == ROW && buffer != latestType
    modifies buffer, oldParams, latestType
    ensures var p := Parameters(name, first, before, "", []).value;
            && i == p.next && j == |p.text| <= BUFFER && buffer[..] == Put(was, 0, p.text)
            && rows == |p.seen| && Remembers(oldParams, p.seen)
  {
    j, i, rows := start, first, 0;
    var size := 0;
    ghost var out, latest, seen := before, "", [];
    while !IsEnd(At(name, i))
      invariant i <= |name| && Parameters(name, i, out, latest, seen) == Parameters(name, first, before, "", [])
      invariant j == |out| <= BUFFER && size == |latest| <= LATEST && rows == |seen| && ParametersFit(name, i, j, size, rows)
      invariant buffer[..] == Put(was, 0, out) && latestType[..size] == latest && Remembers(oldParams, seen)
      decreases |name| - i
    {
      ParametersTurn(name, i, out, latest, seen);
      var c, text := name[i], CodeText(name[i]).value;
      AppendToBuffer(buffer, latestType, was, out, latest, j, size, text);
      j, size, out, latest := j + |text|, size + |text|, out + text, latest + text;
      i := i + 1;
      if c != 'P' && c != 'K' {
        j := FinishParameter(buffer, was, out, j, !IsEnd(At(name, i)), oldParams, rows, latestType, size, seen);
        out := out + if IsEnd(At(name, i)) then "" else ", ";
        rows, seen := rows + 1, seen + [latest];
        size, latest := 0, "";
      }
    }
  }

  method Strlen(s: array<char>, ghost text: string) returns (n: nat)
    requires |text| < s.Length && s[..|text|] == text && '\0' !in text && s[|text|] == '\0'
    ensures n == |text|
  {
    assert forall m :: 0 <= m < |text| ==> s[m] == s[..|text|][m];
    n := 0;
    while s[n] != '\0'
      invariant n <= |text|
      decreases |text| - n
    {
      n := n + 1;
    }
  }

  /** The name of the function and the opening parenthesis. */
  method FunctionNameTo(buffer: array<char>, name: string) returns (j: nat, i: nat)
    requires IsMangled(name) && '\0' !in name && FunctionName(name).Some? && buffer.Length == BUFFER && NameFits(name)
    requires |FunctionName(name).value.text| < BUFFER
    modifies buffer
    ensures var f := FunctionName(name).value;
            i == f.next && j == |f.text| + 1 && buffer[..] == Put(old(buffer[..]), 0, f.text + "(")
  {
    ghost var was, text := buffer[..], FunctionName(name).value.text;
    i := 2;
    if At(name, i) == 'N' {
      i := UnmangleName(buffer, name, i);
      UnmangleNoNul(name, 2);
      TerminatorOf(was, text, buffer);
      j := Strlen(buffer, text);
      CopyTo(buffer, j, "(");
      OverTerminator(was, text);
    } else {
      var lengthStr := new char[DIGITS];
      assert Put(was, 0, "") == was && "" + text == text;
      j, i := CopyComponent(buffer, was, "", 0, name, i, lengthStr);
      Append(buffer, was, text, j, "(");
    }
    j := j + 1;
  }

  lemma TerminatorOf(was: string, text: string, buffer: array<char>)
    requires |text| < |was| == buffer.Length && buffer[..] == Put(was, 0, text + "\0")
    ensures buffer[..|text|] == text && buffer[|text|] == '\0'
  {
    assert buffer[|text|] == buffer[..][|text|];
    assert buffer[..|text|] == buffer[..][..|text|];
  }

  /** The parenthesis takes the place of the terminator. */
  lemma OverTerminator(was: string, text: string)
    requires |text| < |was|
    ensures Put(Put(was, 0, text + "\0"), |text|, "(") == Put(was, 0, text + "(")
  {
  }

  method AppendRemainingName(buffer: array<char>, ghost was: string, ghost out: string, start: nat, name: string,
                             first: nat) returns (j: nat)
    requires first <= |name| && '\0' !in name && start == |out| && |was| == buffer.Length
    requires |out| + |name| - first <= buffer.Length && buffer[..] == Put(was, 0, out)
    modifies buffer
    ensures j == |out + name[first..]| && buffer[..] == Put(was, 0, out + name[first..])
  {
    j := start;
    var i := first;
    while At(name, i) != '\0'
      invariant first <= i <= |name| && j == start + (i - first) && buffer[..] == Put(was, 0, out + name[first..i])
      decreases |name| - i
    {
      buffer[j] := name[i];
      i, j := i + 1, j + 1;
    }
  }

  /** The whole demangling into a block of the heap, whose previous contents stay behind the text.
      The text reads back as a C string if and only if the character behind it was zero. */
  method DemangleSymbol(name: string, buffer: array<char>)
    requires Demangle(name).Some? && '\0' !in name && buffer.Length == BUFFER && SymbolFits(name)
    modifies buffer
    ensures var text := Demangle(name).value;
            && buffer[..] == Put(old(buffer[..]), 0, text)
            && (CString(buffer[..]) == Some(text) <==> |text| < BUFFER && old(buffer[..])[|text|] == '\0')
  {
    ghost var was := buffer[..];
    DemangleNoNul(name);
    ReadsBack(was, Demangle(name).value);
    if !IsMangled(name) {
      CopyTo(buffer, 0, name);
      return;
    }
    var j, i := FunctionNameTo(buffer, name);
    ghost var f := FunctionName(name).value;
    var oldParams := new char[ROWS, ROW];
    var latestType := new char[LATEST];
    var rows;
    j, i, rows := DemangleParameters(buffer, was, f.text + "(", j, name, i, oldParams, latestType);
    ghost var p := Parameters(name, f.next, f.text + "(", "", []).value;
    Append(buffer, was, p.text, j, ")");
    j := AppendRemainingName(buffer, was, p.text + ")", j + 1, name, i);
  }
}
