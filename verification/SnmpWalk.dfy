/** GetNext and GetBulk of internal/snmp/agent.go, and the walk they make over the index. The
    specification speaks of any successor function; the index provides one. */
module SnmpWalk {
  import opened Wrappers
  import opened Oid
  import opened SnmpIndex

  type Next = string -> Option<Binding>

  /** The successor of the successor ..., `n + 1` times. */
  function Successor(next: Next, oid: string, n: nat): Option<Binding> {
    if n == 0 then next(oid)
    else
      match Successor(next, oid, n - 1)
      case None => None
      case Some(b) => next(b.oid)
  }

  // ------------------------------------------------------------------------ requests

  /** A variable of a reply: a binding, or the end marker under the last name reached, without its
      leading dot. */
  datatype Var = Bound(binding: Binding) | EndOfMibView(name: string)

  /** Where a repeater stands before repetition `k`. */
  function CursorAt(next: Next, name: string, k: nat): string {
    if k == 0 then name
    else
      match Successor(next, name, k - 1)
      case None => CursorAt(next, name, k - 1)
      case Some(b) => b.oid
  }

  /** What repetition `k` of a repeater must hold. */
  function Entry(next: Next, name: string, k: nat): Var {
    match Successor(next, name, k)
    case None => EndOfMibView(TrimDot(CursorAt(next, name, k)))
    case Some(b) => Bound(b)
  }

  function Row(next: Next, names: seq<string>, k: nat): (row: seq<Var>)
    ensures |row| == |names|
  {
    if names == [] then [] else Row(next, names[..|names| - 1], k) + [Entry(next, names[|names| - 1], k)]
  }

  function Rows(next: Next, names: seq<string>, n: nat): seq<Var> {
    if n == 0 then [] else Rows(next, names, n - 1) + Row(next, names, n - 1)
  }

  /** Every repeater is at its end in repetition `k`. */
  ghost predicate AllEnded(next: Next, names: seq<string>, k: nat) {
    forall i :: 0 <= i < |names| ==> Successor(next, names[i], k).None?
  }

  lemma {:induction false} RowAt(next: Next, names: seq<string>, k: nat, i: nat)
    requires i < |names|
    ensures Row(next, names, k)[i] == Entry(next, names[i], k)
    decreases |names|
  {
    if i < |names| - 1 { RowAt(next, names[..|names| - 1], k, i); }
  }

  /** `next` is the successor function of this index. */
  ghost predicate Serves(next: Next, bindings: seq<Binding>) {
    && NumericOids(bindings) && Ordered(bindings)
    && forall oid {:trigger NextOf(bindings, oid)} :: next(oid) == NextOf(bindings, oid)
  }

  /** The index's own successor function. */
  function NextIn(bindings: seq<Binding>): Next {
    oid => NextOf(bindings, oid)
  }

  lemma IndexServes(bindings: seq<Binding>)
    requires NumericOids(bindings) && Ordered(bindings)
    ensures Serves(NextIn(bindings), bindings)
  {
  }

  predicate NumericNames(names: seq<string>) {
    forall i :: 0 <= i < |names| ==> Numeric(names[i])
  }

  method Step(bindings: seq<Binding>, oid: string, ghost next: Next) returns (r: Option<Binding>)
    requires Serves(next, bindings) && Numeric(oid)
    ensures r == next(oid) && (r.Some? ==> Numeric(r.value.oid))
  {
    r := SnmpIndex.Next(bindings, oid);
  }

  /** `getNext`: each name's successor, or the end marker. */
  method GetNext(bindings: seq<Binding>, names: seq<string>, ghost next: Next) returns (reply: seq<Var>)
    requires Serves(next, bindings) && NumericNames(names)
    ensures reply == Row(next, names, 0)
  {
    reply := [];
    for i := 0 to |names|
      invariant reply == Row(next, names[..i], 0)
    {
      var found := Step(bindings, names[i], next);
      assert names[..i + 1][..i] == names[..i];
      reply := reply + [if found.None? then EndOfMibView(TrimDot(names[i])) else Bound(found.value)];
    }
    assert names[..|names|] == names;
  }

  /** Before repetition `k`: the cursor stands where it should, and is marked if it ended. */
  ghost predicate Standing(next: Next, name: string, cursor: string, ended: bool, k: nat) {
    && cursor == CursorAt(next, name, k) && Numeric(cursor)
    && ended == (k > 0 && Successor(next, name, k - 1).None?)
  }

  /** One repeater in one repetition. */
  method Repeat(bindings: seq<Binding>, cursor: string, ended: bool, ghost next: Next, ghost name: string, ghost k: nat)
    returns (entry: Var, cursor': string, ended': bool)
    requires Serves(next, bindings) && Standing(next, name, cursor, ended, k)
    ensures Standing(next, name, cursor', ended', k + 1)
    ensures entry == Entry(next, name, k) && (ended' <==> Successor(next, name, k).None?)
  {
    if ended { return EndOfMibView(TrimDot(cursor)), cursor, true; }
    var found := Step(bindings, cursor, next);
    if found.None? { return EndOfMibView(TrimDot(cursor)), cursor, true; }
    return Bound(found.value), found.value.oid, false;
  }

  ghost predicate AllStanding(
    next: Next, names: seq<string>, cursors: seq<string>, ended: seq<bool>, k: nat, lo: nat, hi: nat) {
    && |cursors| == |ended| == |names| && hi <= |names|
    && (forall i :: lo <= i < hi ==> Standing(next, names[i], cursors[i], ended[i], k))
  }

  /** One repetition of `getBulk`. */
  method Repetition(
    bindings: seq<Binding>, names: seq<string>, cursors: array<string>, ended: array<bool>, ghost next: Next,
    ghost k: nat)
    returns (row: seq<Var>, allEnded: bool)
    requires Serves(next, bindings) && AllStanding(next, names, cursors[..], ended[..], k, 0, |names|)
    modifies cursors, ended
    ensures AllStanding(next, names, cursors[..], ended[..], k + 1, 0, |names|)
    ensures row == Row(next, names, k)
    ensures allEnded <==> AllEnded(next, names, k)
  {
    row, allEnded := [], true;
    for i := 0 to |names|
      invariant AllStanding(next, names, cursors[..], ended[..], k + 1, 0, i)
      invariant AllStanding(next, names, cursors[..], ended[..], k, i, |names|)
      invariant row == Row(next, names[..i], k)
      invariant allEnded <==> forall j :: 0 <= j < i ==> Successor(next, names[j], k).None?
    {
      assert names[..i + 1][..i] == names[..i];
      assert cursors[i] == cursors[..][i] && ended[i] == ended[..][i];
      var entry, cursor, end := Repeat(bindings, cursors[i], ended[i], next, names[i], k);
      cursors[i], ended[i] := cursor, end;
      row := row + [entry];
      if !end { allEnded := false; }
    }
    assert names[..|names|] == names;
  }

  const MAX_BULK_REPETITIONS: nat := 100

  /** The number of repetitions a reply holds: up to the limits, and none after the first in
      which all repeaters are at their end. */
  ghost predicate Rounds(next: Next, names: seq<string>, maxRepetitions: nat, rounds: nat) {
    && rounds <= maxRepetitions && rounds <= 100
    && (forall k :: 0 <= k < rounds - 1 ==> !AllEnded(next, names, k))
    && (rounds < maxRepetitions && rounds < 100 ==> rounds > 0 && AllEnded(next, names, rounds - 1))
  }

  method Repetitions(bindings: seq<Binding>, names: seq<string>, maxRepetitions: nat, ghost next: Next)
    returns (rows: seq<Var>, rounds: nat)
    requires Serves(next, bindings) && NumericNames(names)
    ensures rows == Rows(next, names, rounds) && Rounds(next, names, maxRepetitions, rounds)
  {
    var repetitions := if maxRepetitions > MAX_BULK_REPETITIONS then MAX_BULK_REPETITIONS else maxRepetitions;
    var cursors := new string[|names|](i requires 0 <= i < |names| => names[i]);
    var ended := new bool[|names|](i => false);
    rows, rounds := RepeatUpTo(bindings, names, repetitions, cursors, ended, next);
  }

  /** The loop of `getBulk`, with the cursors at their start. */
  method RepeatUpTo(
    bindings: seq<Binding>, names: seq<string>, repetitions: nat, cursors: array<string>, ended: array<bool>,
    ghost next: Next)
    returns (rows: seq<Var>, rounds: nat)
    requires Serves(next, bindings) && AllStanding(next, names, cursors[..], ended[..], 0, 0, |names|)
    modifies cursors, ended
    ensures rows == Rows(next, names, rounds) && rounds <= repetitions
    ensures forall k :: 0 <= k < rounds - 1 ==> !AllEnded(next, names, k)
    ensures rounds < repetitions ==> rounds > 0 && AllEnded(next, names, rounds - 1)
  {
    hide Serves, AllStanding, AllEnded, Row;
    rows, rounds := [], 0;
    var repetition := 0;
    while repetition < repetitions
      invariant rounds == repetition <= repetitions
      invariant AllStanding(next, names, cursors[..], ended[..], repetition, 0, |names|)
      invariant rows == Rows(next, names, rounds)
      invariant forall k :: 0 <= k < rounds ==> !AllEnded(next, names, k)
    {
      var row, allEnded := Repetition(bindings, names, cursors, ended, next, repetition);
      rows := rows + row;
      rounds := rounds + 1;
      if allEnded { break; }
      repetition := repetition + 1;
    }
  }

  /** `getBulk`: the first names get one successor each, the rest rows of successors. */
  method GetBulk(bindings: seq<Binding>, names: seq<string>, nonRepeaters: nat, maxRepetitions: nat, ghost next: Next)
    returns (reply: seq<Var>, rounds: nat)
    requires Serves(next, bindings) && NumericNames(names)
    ensures var n := if nonRepeaters > |names| then |names| else nonRepeaters;
            && Rounds(next, names[n..], maxRepetitions, rounds)
            && reply == Row(next, names[..n], 0) + Rows(next, names[n..], rounds)
  {
    var n := if nonRepeaters > |names| then |names| else nonRepeaters;
    var first := GetNext(bindings, names[..n], next);
    var rows, r := Repetitions(bindings, names[n..], maxRepetitions, next);
    rounds := r;
    reply := first + rows;
  }

  /** Where repetition `k` of repeater `i` stands in the rows. */
  lemma {:induction false} RowsAt(next: Next, names: seq<string>, n: nat, k: nat, i: nat)
    requires k < n && i < |names|
    ensures |Rows(next, names, n)| == n * |names|
    ensures 0 <= k * |names| + i < n * |names|
    ensures Rows(next, names, n)[k * |names| + i] == Entry(next, names[i], k)
    decreases n
  {
    RowsLength(next, names, n);
    RowsLength(next, names, n - 1);
    Inside(k, n, i, |names|);
    if k < n - 1 { RowsAt(next, names, n - 1, k, i); } else { RowAt(next, names, k, i); }
  }

  lemma {:induction false} RowsLength(next: Next, names: seq<string>, n: nat)
    ensures |Rows(next, names, n)| == n * |names|
  {
    if n > 0 {
      RowsLength(next, names, n - 1);
      assert (n - 1) * |names| + |names| == n * |names|;
    }
  }

  lemma Inside(k: nat, n: nat, i: nat, width: nat)
    requires k < n && i < width
    ensures 0 <= k * width + i < n * width
  {
    assert k * width + width == (k + 1) * width <= n * width;
  }

  // ------------------------------------------------------------------------ the walk

  /** `line` lists the bindings a walk meets. */
  ghost predicate Chain(next: Next, line: seq<Binding>) {
    forall i :: 0 <= i < |line| ==> next(line[i].oid) == if i + 1 < |line| then Some(line[i + 1]) else None
  }

  lemma {:induction false} ChainSuccessor(next: Next, line: seq<Binding>, oid: string, start: nat, n: nat)
    requires Chain(next, line) && start <= |line| && next(oid) == if start < |line| then Some(line[start]) else None
    ensures Successor(next, oid, n) == if start + n < |line| then Some(line[start + n]) else None
    decreases n
  {
    if n > 0 { ChainSuccessor(next, line, oid, start, n - 1); }
  }

  lemma {:induction false} AfterBinding(bindings: seq<Binding>, i: nat)
    requires NumericOids(bindings) && Ordered(bindings) && StrictlyOrdered(bindings) && i < |bindings|
    ensures NextOf(bindings, bindings[i].oid) == if i + 1 < |bindings| then Some(bindings[i + 1]) else None
  {
    var oid := bindings[i].oid;
    AboveIff(bindings, oid, i);
    PrecedesTotal(Key(oid), Key(oid));
    if i + 1 < |bindings| {
      AboveIff(bindings, oid, i + 1);
      CompareOidIsOrder(oid, bindings[i + 1].oid);
    }
  }

  lemma {:induction false} IndexIsChain(next: Next, bindings: seq<Binding>)
    requires Serves(next, bindings) && StrictlyOrdered(bindings)
    ensures Chain(next, bindings)
  {
    forall i | 0 <= i < |bindings|
      ensures next(bindings[i].oid) == if i + 1 < |bindings| then Some(bindings[i + 1]) else None {
      assert next(bindings[i].oid) == NextOf(bindings, bindings[i].oid);
      AfterBinding(bindings, i);
    }
  }

  /** The position of the first binding above the start of a walk. */
  function Start(bindings: seq<Binding>, oid: string): (k: nat)
    ensures k <= |bindings|
  {
    FirstAbove(bindings, TrimDot(oid))
  }

  lemma {:induction false} NthSuccessor(next: Next, bindings: seq<Binding>, oid: string, n: nat)
    requires Serves(next, bindings) && StrictlyOrdered(bindings)
    ensures var k := Start(bindings, oid) + n;
            Successor(next, oid, n) == if k < |bindings| then Some(bindings[k]) else None
  {
    hide CompareOid, Numeric, FirstAbove, Successor;
    IndexIsChain(next, bindings);
    assert next(oid) == NextOf(bindings, oid);
    ChainSuccessor(next, bindings, oid, Start(bindings, oid), n);
  }

  lemma {:induction false} AllDistinct(bindings: seq<Binding>)
    requires NumericOids(bindings) && StrictlyOrdered(bindings)
    ensures forall a, b :: 0 <= a < |bindings| && 0 <= b < |bindings| && bindings[a] == bindings[b] ==> a == b
  {
    forall a, b | 0 <= a < |bindings| && 0 <= b < |bindings| && a != b ensures bindings[a] != bindings[b] {
      DistinctBindings(bindings, a, b);
    }
  }

  lemma DistinctBindings(bindings: seq<Binding>, k: nat, i: nat)
    requires NumericOids(bindings) && StrictlyOrdered(bindings) && k < |bindings| && i < |bindings| && k != i
    ensures bindings[k] != bindings[i]
  {
    CompareOidIsOrder(bindings[k].oid, bindings[i].oid);
    CompareOidIsOrder(bindings[i].oid, bindings[k].oid);
    PrecedesTotal(Key(bindings[i].oid), Key(bindings[i].oid));
  }

  lemma {:induction false} MeetsAt(next: Next, bindings: seq<Binding>, oid: string, i: nat, n: nat)
    requires Serves(next, bindings) && StrictlyOrdered(bindings) && i < |bindings|
    ensures Successor(next, oid, n) == Some(bindings[i]) <==> Start(bindings, oid) + n == i
  {
    hide CompareOid, Numeric, FirstAbove, Successor;
    AllDistinct(bindings);
    NthSuccessor(next, bindings, oid, n);
  }

  /** A walk meets every binding above its start, exactly once, and nothing else. */
  lemma {:induction false} WalkMeetsEachOnce(next: Next, bindings: seq<Binding>, oid: string, i: nat, n: nat)
    requires Serves(next, bindings) && StrictlyOrdered(bindings) && Numeric(oid) && i < |bindings|
    ensures Successor(next, oid, n) == Some(bindings[i]) <==>
            Precedes(Key(oid), Key(bindings[i].oid)) && n == i - Start(bindings, oid)
  {
    MeetsAt(next, bindings, oid, i, n);
    AboveIff(bindings, oid, i);
  }

  /** Each step climbs, so a walk ends after as many steps as there are bindings above. */
  lemma {:induction false} WalkClimbsAndEnds(next: Next, bindings: seq<Binding>, oid: string, n: nat)
    requires Serves(next, bindings) && StrictlyOrdered(bindings)
    ensures Successor(next, oid, n).None? <==> n >= |bindings| - Start(bindings, oid)
    ensures Successor(next, oid, n + 1).Some? ==>
      Successor(next, oid, n).Some?
        && CompareOid(Successor(next, oid, n).value.oid, Successor(next, oid, n + 1).value.oid) == -1
  {
    NthSuccessor(next, bindings, oid, n);
    NthSuccessor(next, bindings, oid, n + 1);
  }

  lemma {:induction false} CursorInIndex(next: Next, bindings: seq<Binding>, name: string, k: nat)
    requires Serves(next, bindings) && StrictlyOrdered(bindings)
    ensures var s := Start(bindings, name);
            CursorAt(next, name, k) ==
              if k == 0 || s == |bindings| then name
              else if s + k - 1 < |bindings| then bindings[s + k - 1].oid else bindings[|bindings| - 1].oid
    decreases k
  {
    hide CompareOid, Numeric, FirstAbove, Successor, Start;
    if k > 0 {
      CursorInIndex(next, bindings, name, k - 1);
      NthSuccessor(next, bindings, name, k - 1);
    }
  }

  /** Repetition `k` of a repeater holds the binding `k` places after the first one above its
      name, or the end marker under the name of the last binding it reached. */
  lemma {:induction false} EntryInIndex(next: Next, bindings: seq<Binding>, name: string, k: nat)
    requires Serves(next, bindings) && StrictlyOrdered(bindings)
    ensures var s := Start(bindings, name);
            Entry(next, name, k) ==
              if s + k < |bindings| then Bound(bindings[s + k])
              else EndOfMibView(TrimDot(if s == |bindings| then name else bindings[|bindings| - 1].oid))
  {
    hide CompareOid, Numeric, FirstAbove, Successor, Start, CursorAt;
    NthSuccessor(next, bindings, name, k);
    CursorInIndex(next, bindings, name, k);
  }

  // ------------------------------------------------------------------ equal identifiers

  /** The first binding of each run of equal identifiers. */
  function Firsts(bindings: seq<Binding>): seq<Binding> {
    if bindings == [] then []
    else
      var k := |bindings| - 1;
      var rest := Firsts(bindings[..k]);
      if k > 0 && CompareOid(bindings[k - 1].oid, bindings[k].oid) == 0 then rest else rest + [bindings[k]]
  }

  /** They are all from the index, each identifier once, in order. */
  lemma {:induction false} FirstsStrict(bindings: seq<Binding>)
    requires NumericOids(bindings) && Ordered(bindings)
    ensures NumericOids(Firsts(bindings)) && StrictlyOrdered(Firsts(bindings))
    ensures forall b <- Firsts(bindings) :: b in bindings
    decreases |bindings|
  {
    hide CompareOid, Numeric;
    if bindings != [] {
      var k := |bindings| - 1;
      FirstsStrict(bindings[..k]);
      var rest := Firsts(bindings[..k]);
      if k == 0 || CompareOid(bindings[k - 1].oid, bindings[k].oid) != 0 {
        forall j | 0 <= j < |rest| ensures CompareOid(rest[j].oid, bindings[k].oid) == -1 {
          assert rest[j] in bindings[..k];
          var i :| 0 <= i < k && bindings[i] == rest[j];
          BeforeTie(bindings, i, k);
        }
      }
    }
  }

  lemma BeforeTie(bindings: seq<Binding>, i: nat, k: nat)
    requires NumericOids(bindings) && Ordered(bindings) && i < k < |bindings|
    requires CompareOid(bindings[k - 1].oid, bindings[k].oid) != 0
    ensures CompareOid(bindings[i].oid, bindings[k].oid) == -1
  {
    hide CompareOid, Numeric;
    CompareOidIsOrder(bindings[i].oid, bindings[k].oid);
    CompareOidIsOrder(bindings[k - 1].oid, bindings[k].oid);
    if i < k - 1 { CompareOidTransitive(bindings[i].oid, bindings[k - 1].oid, bindings[k].oid); }
  }

  /** The successor, with one more binding at the end. */
  lemma NextWithLast(bindings: seq<Binding>, b: Binding, oid: string)
    ensures NextOf(bindings + [b], oid) ==
              if NextOf(bindings, oid).Some? then NextOf(bindings, oid)
              else if CompareOid(b.oid, TrimDot(oid)) > 0 then Some(b) else None
  {
    hide CompareOid;
    var more, o := bindings + [b], TrimDot(oid);
    var i, j := FirstAbove(bindings, o), FirstAbove(more, o);
    assert forall n :: 0 <= n < |bindings| ==> more[n] == bindings[n];
    assert more[|bindings|] == b;
    hide FirstAbove;
    if i < |bindings| { assert j <= i; assert i <= j; } else { assert j >= |bindings|; }
  }

  /** Leaving out repeated identifiers changes no successor. */
  lemma {:induction false} FirstsNext(bindings: seq<Binding>, oid: string)
    requires NumericOids(bindings) && Ordered(bindings) && Numeric(oid)
    ensures NextOf(bindings, oid) == NextOf(Firsts(bindings), oid)
    decreases |bindings|
  {
    hide CompareOid, Numeric, NextOf;
    if bindings != [] {
      var k := |bindings| - 1;
      var front, last := bindings[..k], bindings[k];
      FirstsNext(front, oid);
      assert bindings == front + [last];
      NextWithLast(front, last, oid);
      NextWithLast(Firsts(front), last, oid);
      if k > 0 && CompareOid(bindings[k - 1].oid, last.oid) == 0 { TieNotAbove(front, last, oid); }
    }
  }

  lemma TieNotAbove(front: seq<Binding>, last: Binding, oid: string)
    requires NumericOids(front) && Numeric(last.oid) && Numeric(oid) && front != []
    requires CompareOid(front[|front| - 1].oid, last.oid) == 0
    ensures NextOf(front, oid).None? ==> CompareOid(last.oid, TrimDot(oid)) <= 0
  {
    hide CompareOid, Numeric;
    var o, tie := TrimDot(oid), front[|front| - 1].oid;
    TrimSame(oid);
    CompareOidIsOrder(tie, last.oid);
    CompareOidIsOrder(tie, o);
    CompareOidIsOrder(last.oid, o);
  }

  /** A walk over ties meets the first binding of each tie, and goes on to the next identifier. */
  lemma {:induction false} WalkMeetsFirsts(bindings: seq<Binding>, oid: string, n: nat)
    requires NumericOids(bindings) && Ordered(bindings) && Numeric(oid)
    ensures Successor(NextIn(bindings), oid, n) == Successor(NextIn(Firsts(bindings)), oid, n)
    ensures Successor(NextIn(bindings), oid, n).Some? ==> Numeric(Successor(NextIn(bindings), oid, n).value.oid)
    decreases n
  {
    hide CompareOid, Numeric, FirstAbove;
    if n > 0 {
      WalkMeetsFirsts(bindings, oid, n - 1);
      var b := Successor(NextIn(bindings), oid, n - 1);
      if b.Some? { FirstsNext(bindings, b.value.oid); }
    } else {
      FirstsNext(bindings, oid);
    }
  }

  lemma {:induction false} EntryMeetsFirsts(bindings: seq<Binding>, name: string, k: nat)
    requires NumericOids(bindings) && Ordered(bindings) && Numeric(name)
    ensures CursorAt(NextIn(bindings), name, k) == CursorAt(NextIn(Firsts(bindings)), name, k)
    ensures Entry(NextIn(bindings), name, k) == Entry(NextIn(Firsts(bindings)), name, k)
    decreases k
  {
    hide CompareOid, Numeric, FirstAbove, Successor, NextIn;
    WalkMeetsFirsts(bindings, name, k);
    if k > 0 {
      EntryMeetsFirsts(bindings, name, k - 1);
      WalkMeetsFirsts(bindings, name, k - 1);
    }
  }

  lemma {:induction false} RowMeetsFirsts(bindings: seq<Binding>, names: seq<string>, k: nat)
    requires NumericOids(bindings) && Ordered(bindings) && NumericNames(names)
    ensures Row(NextIn(bindings), names, k) == Row(NextIn(Firsts(bindings)), names, k)
    ensures AllEnded(NextIn(bindings), names, k) <==> AllEnded(NextIn(Firsts(bindings)), names, k)
    decreases |names|
  {
    hide CompareOid, Numeric, FirstAbove, Successor, NextIn, Entry;
    forall i | 0 <= i < |names|
      ensures Successor(NextIn(bindings), names[i], k) == Successor(NextIn(Firsts(bindings)), names[i], k)
    {
      WalkMeetsFirsts(bindings, names[i], k);
    }
    if names != [] {
      RowMeetsFirsts(bindings, names[..|names| - 1], k);
      EntryMeetsFirsts(bindings, names[|names| - 1], k);
    }
  }

  lemma {:induction false} RowsMeetFirsts(bindings: seq<Binding>, names: seq<string>, n: nat)
    requires NumericOids(bindings) && Ordered(bindings) && NumericNames(names)
    ensures Rows(NextIn(bindings), names, n) == Rows(NextIn(Firsts(bindings)), names, n)
    ensures forall k :: 0 <= k < n ==>
              (AllEnded(NextIn(bindings), names, k) <==> AllEnded(NextIn(Firsts(bindings)), names, k))
    decreases n
  {
    hide Row, AllEnded, Ordered, NumericOids, NumericNames, Firsts, NextIn;
    if n > 0 {
      RowsMeetFirsts(bindings, names, n - 1);
      RowMeetsFirsts(bindings, names, n - 1);
    }
  }

  /** A bulk request from unsorted bindings, ties included, to the reply: build the index and walk
      it. The reply is that of the index with the first binding of each tie. */
  method AnswerBulk(bindings: seq<Binding>, names: seq<string>, nonRepeaters: nat, maxRepetitions: nat)
    returns (reply: seq<Var>, rounds: nat, index: Index)
    requires NumericOids(bindings) && NumericNames(names)
    ensures multiset(index.bindings) == multiset(bindings)
    ensures var line := Firsts(index.bindings);
            && Serves(NextIn(line), line) && StrictlyOrdered(line) && forall b <- line :: b in index.bindings
    ensures var n := if nonRepeaters > |names| then |names| else nonRepeaters;
            var next := NextIn(Firsts(index.bindings));
            && Rounds(next, names[n..], maxRepetitions, rounds)
            && reply == Row(next, names[..n], 0) + Rows(next, names[n..], rounds)
  {
    hide CompareOid, Numeric, NextIn, Row, Rows;
    index := NewPduIndex(bindings);
    ghost var line := Firsts(index.bindings);
    FirstsStrict(index.bindings);
    IndexServes(index.bindings);
    IndexServes(line);
    reply, rounds := GetBulk(index.bindings, names, nonRepeaters, maxRepetitions, NextIn(index.bindings));
    ghost var n := if nonRepeaters > |names| then |names| else nonRepeaters;
    RowMeetsFirsts(index.bindings, names[..n], 0);
    RowsMeetFirsts(index.bindings, names[n..], rounds);
  }
}
