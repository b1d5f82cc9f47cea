/** The kernel's symbol table: sorted in place, then searched for the symbol an address is in. */
module Symbols {
  import opened Options

  datatype Symbol = Symbol(address: nat, name: string, size: nat)

  /** A table slot; entries come first and the rest is null. */
  type Slot = Option<Symbol>

  /** The number of entries before the first null. */
  ghost function Filled(t: seq<Slot>): (n: nat)
    ensures n <= |t| && (forall k :: 0 <= k < n ==> t[k].Some?)
    ensures n < |t| ==> t[n].None?
  {
    if t == [] || t[0].None? then 0 else 1 + Filled(t[1..])
  }

  lemma FilledIs(t: seq<Slot>, n: nat)
    requires n <= |t| && (forall k :: 0 <= k < n ==> t[k].Some?) && (n < |t| ==> t[n].None?)
    ensures Filled(t) == n
  {
  }

  ghost predicate Sorted(t: seq<Slot>, n: nat)
    requires n <= |t| && forall k :: 0 <= k < n ==> t[k].Some?
  {
    forall i, j :: 0 <= i < j < n ==> t[i].value.address <= t[j].value.address
  }

  /** Entries and nulls are where they were: n entries, then a null or the end. */
  ghost predicate Shape(t: seq<Slot>, n: nat) {
    n <= |t| && (forall k :: 0 <= k < n ==> t[k].Some?) && (n < |t| ==> t[n].None?)
  }

  /** The first i entries are in place: none of them is above a later one. */
  ghost predicate Placed(t: seq<Slot>, n: nat, i: nat)
    requires Shape(t, n)
  {
    forall k, l :: 0 <= k < i && k < l < n ==> t[k].value.address <= t[l].value.address
  }

  /** The same entries in some order, and the same slots behind them. */
  ghost predicate Rearranged(t: seq<Slot>, u: seq<Slot>, n: nat)
    requires n <= |t|
  {
    |u| == |t| && multiset(u[..n]) == multiset(t[..n]) && u[n..] == t[n..]
  }

  lemma SwapRearranges(t: seq<Slot>, u: seq<Slot>, i: nat, j: nat, n: nat)
    requires i < j < n <= |t| && u == t[i := t[j]][j := t[i]]
    ensures Rearranged(t, u, n)
  {
    assert u[..n] == t[..n][i := t[j]][j := t[i]];
  }

  lemma RearrangedTwice(t: seq<Slot>, u: seq<Slot>, v: seq<Slot>, n: nat)
    requires n <= |t| && Rearranged(t, u, n) && Rearranged(u, v, n)
    ensures Rearranged(t, v, n)
  {
  }

  /** Place i holds the least of the entries up to j. */
  ghost predicate LeastSoFar(t: seq<Slot>, n: nat, i: nat, j: nat)
    requires Shape(t, n) && i < j <= n
  {
    forall l :: i < l < j ==> t[i].value.address <= t[l].value.address
  }

  lemma SwapPlaces(t: seq<Slot>, u: seq<Slot>, i: nat, j: nat, n: nat)
    requires i < j < n && Shape(t, n) && Placed(t, n, i) && LeastSoFar(t, n, i, j)
    requires t[j].value.address < t[i].value.address && u == t[i := t[j]][j := t[i]]
    ensures Shape(u, n) && Placed(u, n, i) && LeastSoFar(u, n, i, j + 1)
  {
  }

  /** Exchange sort of the entries, as in the source: each place in turn gets the least entry of
      the rest. */
  method SortSymbolTable(table: array<Slot>)
    modifies table
    ensures Filled(table[..]) == old(Filled(table[..])) && Sorted(table[..], Filled(table[..]))
    ensures Rearranged(old(table[..]), table[..], old(Filled(table[..])))
  {
    ghost var n := Filled(table[..]);
    var i := 0;
    while i < table.Length && table[i].Some?
      invariant i <= n && Shape(table[..], n) && Placed(table[..], n, i)
      invariant Rearranged(old(table[..]), table[..], n)
    {
      PlaceLeast(table, i, n);
      i := i + 1;
    }
    FilledIs(table[..], n);
  }

  /** The inner loop: afterwards place i holds the least of the entries from i on. */
  method PlaceLeast(table: array<Slot>, i: nat, ghost n: nat)
    requires i < n && Shape(table[..], n) && Placed(table[..], n, i)
    modifies table
    ensures Shape(table[..], n) && Placed(table[..], n, i + 1)
    ensures Rearranged(old(table[..]), table[..], n)
  {
    var j := i + 1;
    while j < table.Length && table[j].Some?
      invariant i < j <= n && Shape(table[..], n) && Placed(table[..], n, i) && LeastSoFar(table[..], n, i, j)
      invariant Rearranged(old(table[..]), table[..], n)
    {
      ghost var t := table[..];
      assert t[j] == table[j] && j < n;
      if table[j].value.address < table[i].value.address {
        table[i], table[j] := table[j], table[i];
        assert table[..] == t[i := t[j]][j := t[i]];
        SwapRearranges(t, table[..], i, j, n);
        SwapPlaces(t, table[..], i, j, n);
        RearrangedTwice(old(table[..]), t, table[..], n);
      }
      j := j + 1;
    }
  }

  /** The result answers the query on the first n slots: an entry with the greatest address that
      is not above the query, exact when an address equals it, and none when all are above. */
  ghost predicate Resolves(t: seq<Slot>, n: nat, query: nat, entry: Slot, exact: bool)
    requires n <= |t| && forall k :: 0 <= k < n ==> t[k].Some?
  {
    && (entry.None? <==> forall k :: 0 <= k < n ==> t[k].value.address > query)
    && (exact <==> exists k :: 0 <= k < n && t[k].value.address == query)
    && (entry.Some? ==> && entry in t[..n] && entry.value.address <= query
                        && forall k :: 0 <= k < n && t[k].value.address <= query ==> t[k].value.address <= entry.value.address)
    && (exact ==> entry.Some? && entry.value.address == query)
  }

  method ResolveAddress(table: array<Slot>, query: nat) returns (entry: Slot, exact: bool)
    requires Sorted(table[..], Filled(table[..]))
    ensures Resolves(table[..], Filled(table[..]), query, entry, exact)
  {
    ghost var n := Filled(table[..]);
    entry, exact := None, false;
    var i := 0;
    while i < table.Length && table[i].Some?
      invariant i <= n && !exact
      invariant if i == 0 then entry == None else entry == table[i - 1]
      invariant forall k :: 0 <= k < i ==> table[k].value.address < query
    {
      if table[i].value.address == query {
        entry, exact := table[i], true;
        assert entry == table[..n][i];
        return;
      }
      if table[i].value.address > query {
        break;
      }
      entry := table[i];
      i := i + 1;
    }
    assert forall k :: i <= k < n ==> table[k].value.address > query;
    assert i > 0 ==> entry == table[..n][i - 1];
  }

  lemma RearrangedEntries(t: seq<Slot>, u: seq<Slot>, n: nat)
    requires n <= |t| && Rearranged(t, u, n)
    ensures forall s: Slot :: s in t[..n] <==> s in u[..n]
  {
    forall s: Slot
      ensures s in t[..n] <==> s in u[..n]
    {
      assert s in t[..n] <==> s in multiset(t[..n]);
      assert s in u[..n] <==> s in multiset(u[..n]);
    }
  }

  /** An answer does not depend on the order of the entries. */
  lemma ResolvesInAnyOrder(t: seq<Slot>, u: seq<Slot>, n: nat, query: nat, entry: Slot, exact: bool)
    requires Shape(t, n) && Shape(u, n) && Rearranged(t, u, n) && Resolves(u, n, query, entry, exact)
    ensures Resolves(t, n, query, entry, exact)
  {
    RearrangedEntries(t, u, n);
    forall k | 0 <= k < n
      ensures exists l :: 0 <= l < n && t[l] == u[k]
    {
      assert u[..n][k] in t[..n];
    }
    forall k | 0 <= k < n
      ensures exists l :: 0 <= l < n && u[l] == t[k]
    {
      assert t[..n][k] in u[..n];
    }
  }

  /** Sorting and then resolving answers every query about the table as it was filled. */
  method SortThenResolve(table: array<Slot>, query: nat) returns (entry: Slot, exact: bool)
    modifies table
    ensures Resolves(old(table[..]), old(Filled(table[..])), query, entry, exact)
  {
    ghost var was := table[..];
    SortSymbolTable(table);
    entry, exact := ResolveAddress(table, query);
    ResolvesInAnyOrder(was, table[..], Filled(was), query, entry, exact);
  }
}
