/** Rollback protection by a monotonic hardware counter.  The commit tag is any
    function of the counter and the state root; its one-time key depends on the
    counter alone, so a counter must never serve two commits. */
module Rollback {
  import opened Blocks

  const LIMIT: int := 0x1_0000_0000_0000_0000

  type Tag = t: Bytes | |t| == 16 witness seq(16, _ => 0)
  type TagFunction = (nat, Bytes) -> Tag

  /** What a commit leaves on disk. */
  datatype Commit = Commit(counter: nat, root: Bytes, tag: Tag)

  // ----- the counter -----

  /** The modelled non-volatile counter, 64 bits wide. */
  class NvCounter {
    var value: nat

    ghost predicate Valid()
      reads this
    {
      value < LIMIT
    }

    constructor ()
      ensures Valid() && value == 0
    {
      value := 0;
    }

    /** The increment wraps like the unsigned integer that it is. */
    method Increment() returns (v: nat)
      requires Valid()
      modifies this
      ensures Valid() && v == value == if old(value) == LIMIT - 1 then 0 else old(value) + 1
    {
      value := (value + 1) % LIMIT;
      v := value;
    }

    /** A value that is not above the current one is refused. */
    method TrySet(v: nat) returns (ok: bool)
      requires Valid() && v < LIMIT
      modifies this
      ensures Valid() && (ok <==> v > old(value)) && value == if ok then v else old(value)
    {
      if v <= value {
        return false;
      }
      value := v;
      return true;
    }
  }

  // ----- verification -----

  /** The accumulated difference of the first n bytes. */
  method CtEq16(a: Tag, b: Tag) returns (same: bool)
    ensures same == (a == b)
  {
    hide XorByte;
    var d: Byte := 0;
    for i := 0 to 16
      invariant d == 0 <==> a[..i] == b[..i]
    {
      DifferenceStep(d, a[i], b[i]);
      d := d | XorByte(a[i], b[i]);
      assert a[..i + 1] == a[..i] + [a[i]] && b[..i + 1] == b[..i] + [b[i]];
    }
    assert a[..16] == a && b[..16] == b;
    same := d == 0;
  }

  lemma DifferenceStep(d: Byte, x: Byte, y: Byte)
    ensures d | XorByte(x, y) == 0 <==> d == 0 && x == y
  {
  }

  predicate Verifies(tag: TagFunction, hardware: nat, disk: nat, root: Bytes, stored: Tag) {
    disk == hardware && tag(hardware, root) == stored
  }

  method Verify(tag: TagFunction, hardware: nat, disk: nat, root: Bytes, stored: Tag) returns (ok: bool)
    ensures ok == Verifies(tag, hardware, disk, root, stored)
  {
    if disk != hardware {
      return false;
    }
    ok := CtEq16(tag(hardware, root), stored);
  }

  // ----- runs -----

  /** One step: commit the current state and advance, or ask for a value. */
  datatype Op = Save(root: Bytes) | Set(v: nat)

  datatype State = State(value: nat, log: seq<Commit>)

  const START: State := State(0, [])

  function Apply(tag: TagFunction, s: State, op: Op): State {
    match op
    case Save(root) =>
      State(if s.value == LIMIT - 1 then 0 else s.value + 1, s.log + [Commit(s.value, root, tag(s.value, root))])
    case Set(v) =>
      if v < LIMIT && v > s.value then s.(value := v) else s
  }

  /** The state after the first steps of a run. */
  function After(tag: TagFunction, ops: seq<Op>): (s: State)
    ensures s.value < LIMIT
  {
    if ops == [] then START else Apply(tag, After(tag, ops[..|ops| - 1]), ops[|ops| - 1])
  }

  /** The loop that commits one version after another. */
  method CommitAll(nv: NvCounter, tag: TagFunction, roots: seq<Bytes>, ghost before: seq<Op>) returns (commits: seq<Commit>)
    requires nv.Valid() && nv.value == After(tag, before).value
    modifies nv
    ensures nv.Valid()
    ensures var s := After(tag, before + seq(|roots|, i requires 0 <= i < |roots| => Save(roots[i])));
            nv.value == s.value && After(tag, before).log + commits == s.log
  {
    commits := [];
    ghost var ops := before;
    for i := 0 to |roots|
      invariant nv.Valid()
      invariant ops == before + seq(i, k requires 0 <= k < i => Save(roots[k]))
      invariant nv.value == After(tag, ops).value && After(tag, before).log + commits == After(tag, ops).log
    {
      var c := nv.value;
      ghost var next := ops + [Save(roots[i])];
      assert next[..|next| - 1] == ops;
      commits := commits + [Commit(c, roots[i], tag(c, roots[i]))];
      var _ := nv.Increment();
      ops := next;
    }
  }

  /** No commit of the run happens at the last value of the counter. */
  predicate NoWrap(tag: TagFunction, ops: seq<Op>) {
    forall n :: 0 <= n < |ops| && ops[n].Save? ==> After(tag, ops[..n]).value != LIMIT - 1
  }

  /** Later commits have larger counters, all of them below the hardware. */
  predicate Ordered(s: State) {
    && (forall i, j :: 0 <= i < j < |s.log| ==> s.log[i].counter < s.log[j].counter)
    && (forall i :: 0 <= i < |s.log| ==> s.log[i].counter < s.value)
  }

  lemma NoWrapPrefix(tag: TagFunction, ops: seq<Op>, n: nat)
    requires n <= |ops| && NoWrap(tag, ops)
    ensures NoWrap(tag, ops[..n])
  {
    forall k | 0 <= k < n && ops[k].Save? ensures After(tag, ops[..n][..k]).value != LIMIT - 1 {
      assert ops[..n][..k] == ops[..k];
    }
  }

  /** The invariant of every run that stays below the limit. */
  lemma {:induction false} RunOrdered(tag: TagFunction, ops: seq<Op>)
    requires NoWrap(tag, ops)
    ensures Ordered(After(tag, ops))
    decreases |ops|
  {
    if ops != [] {
      var n := |ops| - 1;
      NoWrapPrefix(tag, ops, n);
      RunOrdered(tag, ops[..n]);
    }
  }

  /** The hardware value of a run never moves back, and moves on at a commit. */
  predicate Monotone(tag: TagFunction, ops: seq<Op>) {
    forall n :: 0 <= n < |ops| ==>
      && After(tag, ops[..n]).value <= After(tag, ops[..n + 1]).value
      && (ops[n].Save? ==> After(tag, ops[..n]).value < After(tag, ops[..n + 1]).value)
  }

  /** That is so exactly when no commit happens at the last value. */
  lemma MonotoneIff(tag: TagFunction, ops: seq<Op>)
    ensures Monotone(tag, ops) <==> NoWrap(tag, ops)
  {
    forall n | 0 <= n < |ops|
      ensures After(tag, ops[..n + 1]) == Apply(tag, After(tag, ops[..n]), ops[n])
    {
      assert ops[..n + 1][..n] == ops[..n];
    }
    if Monotone(tag, ops) {
      forall n | 0 <= n < |ops| && ops[n].Save? ensures After(tag, ops[..n]).value != LIMIT - 1 {
        assert After(tag, ops[..n]).value < After(tag, ops[..n + 1]).value;
      }
    }
  }

  /** No two commits of such a run are made under the same one-time key. */
  lemma CountersDistinct(tag: TagFunction, ops: seq<Op>, i: nat, j: nat)
    requires NoWrap(tag, ops) && i < j < |After(tag, ops).log|
    ensures After(tag, ops).log[i].counter != After(tag, ops).log[j].counter
  {
    RunOrdered(tag, ops);
  }

  predicate Distinct(log: seq<Commit>) {
    forall i, j :: 0 <= i < j < |log| ==> log[i].counter != log[j].counter
  }

  lemma AfterOne(tag: TagFunction, ops: seq<Op>, op: Op)
    ensures After(tag, ops + [op]) == Apply(tag, After(tag, ops), op)
  {
    assert (ops + [op])[..|ops|] == ops;
  }

  lemma {:induction false} LogExtends(tag: TagFunction, ops: seq<Op>, n: nat)
    requires n <= |ops|
    ensures After(tag, ops[..n]).log <= After(tag, ops).log
    decreases |ops|
  {
    if n < |ops| {
      var m := |ops| - 1;
      LogExtends(tag, ops[..m], n);
      assert ops[..m][..n] == ops[..n];
    } else {
      assert ops[..n] == ops;
    }
  }

  /** The condition is exact for what may follow: a run is free of wrapping
      commits if and only if it can still go up to the last value and commit
      there without using any counter twice. */
  lemma NoWrapIff(tag: TagFunction, ops: seq<Op>, r: Bytes)
    ensures NoWrap(tag, ops) <==> Distinct(After(tag, ops + [Set(LIMIT - 1), Save(r)]).log)
  {
    hide After;
    var s := After(tag, ops);
    AfterOne(tag, ops, Set(LIMIT - 1));
    AfterOne(tag, ops + [Set(LIMIT - 1)], Save(r));
    assert ops + [Set(LIMIT - 1), Save(r)] == (ops + [Set(LIMIT - 1)]) + [Save(r)];
    var log := After(tag, ops + [Set(LIMIT - 1), Save(r)]).log;
    assert log[..|s.log|] == s.log && log[|s.log|].counter == LIMIT - 1;
    if NoWrap(tag, ops) {
      RunOrdered(tag, ops);
    } else {
      var n :| 0 <= n < |ops| && ops[n].Save? && After(tag, ops[..n]).value == LIMIT - 1;
      AfterOne(tag, ops[..n], ops[n]);
      assert ops[..n + 1] == ops[..n] + [ops[n]];
      LogExtends(tag, ops, n + 1);
      var k := |After(tag, ops[..n]).log|;
      assert After(tag, ops[..n + 1]).log[k].counter == LIMIT - 1;
      assert log[k].counter == log[|s.log|].counter;
    }
  }

  function Saves(roots: seq<Bytes>): (ops: seq<Op>)
    ensures |ops| == |roots| && forall i :: 0 <= i < |roots| ==> ops[i] == Save(roots[i])
  {
    seq(|roots|, i requires 0 <= i < |roots| => Save(roots[i]))
  }

  lemma NextCounter(v: int, k: nat)
    requires 0 <= v < LIMIT
    ensures (if (v + k) % LIMIT == LIMIT - 1 then 0 else (v + k) % LIMIT + 1) == (v + k + 1) % LIMIT
  {
  }

  /** Commit after commit the counters run through the values modulo the limit,
      and every entry holds its own root with the tag of both. */
  lemma {:induction false} LoopCounters(tag: TagFunction, v: int, roots: seq<Bytes>)
    requires 0 <= v < LIMIT
    ensures var s := After(tag, [Set(v)] + Saves(roots));
            && s.value == (v + |roots|) % LIMIT && |s.log| == |roots|
            && forall k :: 0 <= k < |roots| ==>
                 s.log[k] == Commit((v + k) % LIMIT, roots[k], tag((v + k) % LIMIT, roots[k]))
    decreases |roots|
  {
    hide After;
    if roots == [] {
      AfterOne(tag, [], Set(v));
      AfterNone(tag);
      assert [Set(v)] + Saves(roots) == [] + [Set(v)];
    } else {
      var n := |roots| - 1;
      LoopCounters(tag, v, roots[..n]);
      AfterOne(tag, [Set(v)] + Saves(roots[..n]), Save(roots[n]));
      assert [Set(v)] + Saves(roots) == ([Set(v)] + Saves(roots[..n])) + [Save(roots[n])];
      NextCounter(v, n);
    }
  }

  lemma AfterNone(tag: TagFunction)
    ensures After(tag, []) == START
  {
  }

  /** The commit loop, from any hardware value: no counter serves twice if and
      only if there are at most as many commits as counters. */
  lemma CommitLoopIff(tag: TagFunction, v: int, roots: seq<Bytes>)
    requires 0 <= v < LIMIT
    ensures Distinct(After(tag, [Set(v)] + Saves(roots)).log) <==> |roots| <= LIMIT
  {
    hide After;
    LoopCounters(tag, v, roots);
    var log := After(tag, [Set(v)] + Saves(roots)).log;
    if |roots| <= LIMIT {
      forall i, j | 0 <= i < j < |log| ensures log[i].counter != log[j].counter {
        DistinctRemainders(v + i, v + j);
      }
    } else {
      SameRemainder(v);
      assert log[0].counter == log[LIMIT].counter;
    }
  }

  lemma DistinctRemainders(x: int, y: int)
    requires 0 <= x < y < x + LIMIT
    ensures x % LIMIT != y % LIMIT
  {
  }

  lemma SameRemainder(v: int)
    requires 0 <= v < LIMIT
    ensures (v + 0) % LIMIT == (v + LIMIT) % LIMIT
  {
  }

  /** After a wrapping commit a counter can serve twice. */
  lemma WrappedCounterRepeats(tag: TagFunction, r: Bytes)
    ensures var log := After(tag, [Save(r), Set(LIMIT - 1), Save(r), Save(r)]).log;
            |log| == 3 && log[0].counter == log[2].counter == 0
  {
    var ops := [Save(r), Set(LIMIT - 1), Save(r), Save(r)];
    assert ops[..3][..2] == ops[..2] && ops[..2][..1] == ops[..1] && ops[..1][..0] == [];
    assert After(tag, ops[..1]) == Apply(tag, START, Save(r));
    assert After(tag, ops[..2]) == Apply(tag, After(tag, ops[..1]), Set(LIMIT - 1));
    assert After(tag, ops[..3]) == Apply(tag, After(tag, ops[..2]), Save(r));
    assert After(tag, ops) == Apply(tag, After(tag, ops[..3]), Save(r));
  }

  /** And a snapshot of such a run can verify at the value the hardware holds. */
  lemma WrappedSnapshotVerifies(tag: TagFunction, r: Bytes)
    ensures var s := After(tag, [Save(r), Set(LIMIT - 1), Save(r)]);
            |s.log| == 2 && Verifies(tag, s.value, s.log[0].counter, s.log[0].root, s.log[0].tag)
  {
    hide After;
    AfterNone(tag);
    AfterOne(tag, [], Save(r));
    AfterOne(tag, [Save(r)], Set(LIMIT - 1));
    AfterOne(tag, [Save(r), Set(LIMIT - 1)], Save(r));
    assert [] + [Save(r)] == [Save(r)] && [Save(r)] + [Set(LIMIT - 1)] == [Save(r), Set(LIMIT - 1)];
    assert [Save(r), Set(LIMIT - 1)] + [Save(r)] == [Save(r), Set(LIMIT - 1), Save(r)];
  }

  lemma {:induction false} LogIsTagged(tag: TagFunction, ops: seq<Op>, k: nat)
    requires k < |After(tag, ops).log|
    ensures var c := After(tag, ops).log[k]; c.tag == tag(c.counter, c.root)
    decreases |ops|
  {
    var n := |ops| - 1;
    if k < |After(tag, ops[..n]).log| {
      LogIsTagged(tag, ops[..n], k);
    }
  }

  /** A stored snapshot verifies at exactly one hardware value, the one it was
      committed under.  With the marker forged to another value it passes only
      if the tags under the two counters coincide. */
  lemma SnapshotVerifiesIff(tag: TagFunction, ops: seq<Op>, k: nat, hardware: nat)
    requires k < |After(tag, ops).log|
    ensures var c := After(tag, ops).log[k];
            && (Verifies(tag, hardware, c.counter, c.root, c.tag) <==> hardware == c.counter)
            && (Verifies(tag, hardware, hardware, c.root, c.tag) <==> tag(hardware, c.root) == tag(c.counter, c.root))
  {
    LogIsTagged(tag, ops, k);
  }

  /** Because a commit binds the value before the increment, every snapshot of a
      run without a wrapping commit is refused at the value the hardware then holds, the newest one too:
      a mount has to present the value the live snapshot was committed under. */
  lemma NoSnapshotVerifiesAtPresent(tag: TagFunction, ops: seq<Op>, k: nat)
    requires NoWrap(tag, ops) && k < |After(tag, ops).log|
    ensures var s := After(tag, ops); var c := s.log[k];
            !Verifies(tag, s.value, c.counter, c.root, c.tag)
  {
    RunOrdered(tag, ops);
  }

  /** Replay: an older snapshot is refused wherever a newer one is accepted. */
  lemma OlderSnapshotRejected(tag: TagFunction, ops: seq<Op>, old': nat, live: nat, hardware: nat)
    requires NoWrap(tag, ops) && old' < live < |After(tag, ops).log|
    requires var c := After(tag, ops).log[live]; Verifies(tag, hardware, c.counter, c.root, c.tag)
    ensures var c := After(tag, ops).log[old']; !Verifies(tag, hardware, c.counter, c.root, c.tag)
  {
    RunOrdered(tag, ops);
  }
}
