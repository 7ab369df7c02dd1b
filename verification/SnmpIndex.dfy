/** internal/snmp/oid.go and the walk requests of internal/snmp/agent.go: the sorted index of
    bindings, the successor of an identifier, GetNext and GetBulk. */
module SnmpIndex {
  import opened Wrappers
  import opened Text
  import opened Oid
  import opened Sorting
  import Leaves

  datatype Binding = Binding(oid: string, value: Leaves.Value)

  /** `pduIndex`. */
  datatype Index = Index(bindings: seq<Binding>, byOid: map<string, Binding>)

  predicate NumericOids(bindings: seq<Binding>) {
    forall i :: 0 <= i < |bindings| ==> Numeric(bindings[i].oid)
  }

  predicate Ordered(bindings: seq<Binding>) {
    forall i, j :: 0 <= i < j < |bindings| ==> CompareOid(bindings[i].oid, bindings[j].oid) <= 0
  }

  predicate StrictlyOrdered(bindings: seq<Binding>) {
    forall i, j :: 0 <= i < j < |bindings| ==> CompareOid(bindings[i].oid, bindings[j].oid) == -1
  }

  /** No two bindings have equal identifiers. */
  ghost predicate Apart(bindings: seq<Binding>) {
    && (forall b <- bindings :: multiset(bindings)[b] == 1)
    && (forall x, y :: x in bindings && y in bindings && x != y ==> CompareOid(x.oid, y.oid) != 0)
  }

  // ------------------------------------------------------------------- building

  function AtMost(): ((Binding, Binding) -> bool) {
    (x: Binding, y: Binding) => CompareOid(x.oid, y.oid) <= 0
  }

  lemma OidsOrderAll(bindings: seq<Binding>)
    requires NumericOids(bindings)
    ensures OrdersAll(AtMost(), bindings)
  {
    forall x, y | x in bindings && y in bindings ensures AtMost()(x, y) || AtMost()(y, x) {
      CompareOidIsOrder(x.oid, y.oid);
    }
    forall x, y, z | x in bindings && y in bindings && z in bindings && AtMost()(x, y) && AtMost()(y, z)
      ensures AtMost()(x, z) {
      CompareOidTransitive(x.oid, y.oid, z.oid);
    }
  }

  /** `newPDUIndex`. */
  method NewPduIndex(bindings: seq<Binding>) returns (index: Index)
    requires NumericOids(bindings)
    ensures multiset(index.bindings) == multiset(bindings) && NumericOids(index.bindings) && Ordered(index.bindings)
    ensures Apart(bindings) ==> StrictlyOrdered(index.bindings)
    ensures forall oid :: oid in index.byOid <==> exists b :: b in bindings && b.oid == oid
    ensures forall oid <- index.byOid :: index.byOid[oid] in bindings && index.byOid[oid].oid == oid
    ensures forall i :: 0 <= i < |index.bindings| && IsLast(index.bindings, i) ==> Found(index.byOid, index.bindings[i])
  {
    hide CompareOid, Numeric, Apart, Ordered, StrictlyOrdered, IsLast, Found, OrdersAll, SortedBy;
    OidsOrderAll(bindings);
    var sorted := Sort(AtMost(), bindings);
    SortedIsOrdered(sorted, bindings);
    var byOid := IndexByOid(sorted);
    index := Index(sorted, byOid);
  }

  /** No later binding has the same identifier. */
  predicate IsLast(bindings: seq<Binding>, i: nat)
    requires i < |bindings|
  {
    forall j :: i < j < |bindings| ==> bindings[j].oid != bindings[i].oid
  }

  predicate Found(byOid: map<string, Binding>, b: Binding) {
    b.oid in byOid && byOid[b.oid] == b
  }

  method IndexByOid(sorted: seq<Binding>) returns (byOid: map<string, Binding>)
    ensures forall oid :: oid in byOid <==> exists b :: b in sorted && b.oid == oid
    ensures forall oid <- byOid :: byOid[oid] in sorted && byOid[oid].oid == oid
    ensures forall i :: 0 <= i < |sorted| && IsLast(sorted, i) ==> Found(byOid, sorted[i])
  {
    byOid := map[];
    for i := 0 to |sorted|
      invariant forall j :: 0 <= j < i && IsLast(sorted, j) ==> Found(byOid, sorted[j])
      invariant forall j :: 0 <= j < i ==> sorted[j].oid in byOid
      invariant forall oid <- byOid :: byOid[oid] in sorted && byOid[oid].oid == oid
    {
      byOid := byOid[sorted[i].oid := sorted[i]];
    }
  }

  lemma SortedIsOrdered(sorted: seq<Binding>, bindings: seq<Binding>)
    requires multiset(sorted) == multiset(bindings) && SortedBy(AtMost(), sorted) && NumericOids(bindings)
    ensures NumericOids(sorted) && Ordered(sorted) && forall x :: x in sorted <==> x in bindings
    ensures Apart(bindings) ==> StrictlyOrdered(sorted)
  {
    forall x ensures x in sorted <==> x in bindings { assert x in sorted <==> x in multiset(sorted); }
    forall i | 0 <= i < |sorted| ensures Numeric(sorted[i].oid) { assert sorted[i] in bindings; }
    forall i, j | 0 <= i < j < |sorted| ensures CompareOid(sorted[i].oid, sorted[j].oid) <= 0 {
      assert AtMost()(sorted[i], sorted[j]);
    }
    if Apart(bindings) {
      forall i, j | 0 <= i < j < |sorted| ensures CompareOid(sorted[i].oid, sorted[j].oid) == -1 {
        StrictPair(sorted, bindings, i, j);
      }
    }
  }

  lemma StrictPair(sorted: seq<Binding>, bindings: seq<Binding>, i: nat, j: nat)
    requires multiset(sorted) == multiset(bindings) && Apart(bindings) && i < j < |sorted|
    requires sorted[i] in bindings && sorted[j] in bindings && Numeric(sorted[i].oid) && Numeric(sorted[j].oid)
    requires CompareOid(sorted[i].oid, sorted[j].oid) <= 0
    ensures CompareOid(sorted[i].oid, sorted[j].oid) == -1
  {
    CompareOidIsOrder(sorted[i].oid, sorted[j].oid);
    if sorted[i] == sorted[j] { TwiceIn(sorted, i, j); }
  }

  // ------------------------------------------------------------------ the successor

  /** The position of the first binding above `oid`. */
  function FirstAbove(bindings: seq<Binding>, oid: string): (k: nat)
    ensures k <= |bindings|
    ensures forall i :: 0 <= i < k ==> CompareOid(bindings[i].oid, oid) <= 0
    ensures k < |bindings| ==> CompareOid(bindings[k].oid, oid) > 0
  {
    if bindings == [] || CompareOid(bindings[0].oid, oid) > 0 then 0 else 1 + FirstAbove(bindings[1..], oid)
  }

  /** `next`. */
  function NextOf(bindings: seq<Binding>, oid: string): Option<Binding> {
    var k := FirstAbove(bindings, TrimDot(oid));
    if k < |bindings| then Some(bindings[k]) else None
  }

  lemma {:induction false} AboveStaysAbove(bindings: seq<Binding>, oid: string, i: nat, j: nat)
    requires NumericOids(bindings) && Ordered(bindings) && Numeric(oid) && i <= j < |bindings|
    requires CompareOid(bindings[i].oid, oid) > 0
    ensures CompareOid(bindings[j].oid, oid) > 0
  {
    if i < j {
      CompareOidIsOrder(bindings[j].oid, oid);
      CompareOidIsOrder(bindings[i].oid, oid);
      if CompareOid(bindings[j].oid, oid) <= 0 { CompareOidTransitive(bindings[i].oid, bindings[j].oid, oid); }
    }
  }

  /** `sort.Search` with the test of `next`. */
  method Search(bindings: seq<Binding>, oid: string) returns (i: nat)
    requires NumericOids(bindings) && Ordered(bindings) && Numeric(oid)
    ensures i == FirstAbove(bindings, oid)
  {
    hide CompareOid, Numeric;
    i := 0;
    var j := |bindings|;
    while i < j
      invariant i <= j <= |bindings|
      invariant i == 0 || CompareOid(bindings[i - 1].oid, oid) <= 0
      invariant j == |bindings| || CompareOid(bindings[j].oid, oid) > 0
    {
      var h := (i + j) / 2;
      if CompareOid(bindings[h].oid, oid) > 0 { j := h; } else { i := h + 1; }
    }
    var k := FirstAbove(bindings, oid);
    if k < i { AboveStaysAbove(bindings, oid, k, i - 1); }
  }

  lemma TrimSame(oid: string)
    requires Numeric(oid)
    ensures Components(TrimDot(oid)) == Components(oid) && Numeric(TrimDot(oid)) && Key(TrimDot(oid)) == Key(oid)
  {
    var s := TrimDot(oid);
    assert Atoi("").None?;
    if HasPrefix(s, ".") { assert Split(s, '.')[0] == ""; }
  }

  method Next(bindings: seq<Binding>, oid: string) returns (r: Option<Binding>)
    requires NumericOids(bindings) && Ordered(bindings) && Numeric(oid)
    ensures r == NextOf(bindings, oid)
  {
    TrimSame(oid);
    var i := Search(bindings, TrimDot(oid));
    if i == |bindings| { return None; }
    return Some(bindings[i]);
  }

  lemma {:induction false} AboveIff(bindings: seq<Binding>, oid: string, i: nat)
    requires NumericOids(bindings) && Ordered(bindings) && Numeric(oid) && i < |bindings|
    ensures Precedes(Key(oid), Key(bindings[i].oid)) <==> FirstAbove(bindings, TrimDot(oid)) <= i
  {
    TrimSame(oid);
    CompareOidIsOrder(bindings[i].oid, TrimDot(oid));
    var k := FirstAbove(bindings, TrimDot(oid));
    if k <= i { AboveStaysAbove(bindings, TrimDot(oid), k, i); }
  }

  lemma {:induction false} OrderedPair(bindings: seq<Binding>, i: nat, j: nat)
    requires NumericOids(bindings) && Ordered(bindings) && i <= j < |bindings|
    ensures CompareOid(bindings[i].oid, bindings[j].oid) <= 0
  {
    if i == j { CompareOidIsOrder(bindings[i].oid, bindings[j].oid); }
  }

  /** The successor is the least binding above the identifier, if there is one. */
  lemma {:induction false} NextIsLeastAbove(bindings: seq<Binding>, oid: string)
    requires NumericOids(bindings) && Ordered(bindings) && Numeric(oid)
    ensures NextOf(bindings, oid).None? <==>
            forall i :: 0 <= i < |bindings| ==> !Precedes(Key(oid), Key(bindings[i].oid))
    ensures NextOf(bindings, oid).Some? ==>
      var next := NextOf(bindings, oid).value;
      && next in bindings && Numeric(next.oid) && Precedes(Key(oid), Key(next.oid))
      && forall i :: 0 <= i < |bindings| && Precedes(Key(oid), Key(bindings[i].oid)) ==>
         CompareOid(next.oid, bindings[i].oid) <= 0
  {
    var k := FirstAbove(bindings, TrimDot(oid));
    forall i | 0 <= i < |bindings| ensures Precedes(Key(oid), Key(bindings[i].oid)) <==> k <= i {
      AboveIff(bindings, oid, i);
    }
    if k < |bindings| {
      assert NextOf(bindings, oid) == Some(bindings[k]);
      forall i | k <= i < |bindings| ensures CompareOid(bindings[k].oid, bindings[i].oid) <= 0 {
        OrderedPair(bindings, k, i);
      }
    }
  }
}
