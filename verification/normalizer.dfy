/** The post-processing step of `parseOutput`: make the hop numbered 1 the
    local machine.

    The first hop whose number is 1, wherever it sits in the list, gets the
    hostname "localhost" and the IP "127.0.0.1"; its number, `ttl` and ping
    time are kept and no other hop changes. When no hop is numbered 1 and
    the list is not empty, a synthetic local hop is put in front. An empty
    list stays empty. */
module Normalizer {
  import opened Wrappers
  import opened Hops

  /** The synthetic first hop: the local machine, answering in 0 ms. */
  const LocalHop := Hop(1, 1, LocalhostName, LoopbackIp, 0)

  /** Index of the first hop numbered 1 at or after `i`. */
  function FirstHop1From(hops: seq<Hop>, i: nat): (r: Option<nat>)
    ensures r.Some? ==> i <= r.value < |hops| && hops[r.value].hop == 1
    ensures r.Some? ==> forall k :: i <= k < r.value ==> hops[k].hop != 1
    ensures r.None? ==> forall k :: i <= k < |hops| ==> hops[k].hop != 1
    decreases |hops| - i
  {
    if i >= |hops| then None
    else if hops[i].hop == 1 then Some(i)
    else FirstHop1From(hops, i + 1)
  }

  /** Index of the first hop numbered 1, if any. */
  function FirstHop1(hops: seq<Hop>): Option<nat> {
    FirstHop1From(hops, 0)
  }

  /** The hop made into the local machine: only hostname and IP change. */
  function AsLocal(h: Hop): (r: Hop)
    ensures r.hop == h.hop && r.ttl == h.ttl && r.pingTime == h.pingTime
    ensures r.hostname == LocalhostName && r.ip == LoopbackIp
  {
    h.(hostname := LocalhostName, ip := LoopbackIp)
  }

  /** Adds one to the number and `ttl` of every hop after the first. */
  function ShiftAfterFirst(hops: seq<Hop>): (r: seq<Hop>)
    requires hops != []
    ensures |r| == |hops| && r[0] == hops[0]
    ensures forall k :: 1 <= k < |r| ==> r[k] == hops[k].(hop := hops[k].hop + 1, ttl := hops[k].ttl + 1)
  {
    [hops[0]] + seq(|hops| - 1, k requires 0 <= k < |hops| - 1 =>
      hops[k + 1].(hop := hops[k + 1].hop + 1, ttl := hops[k + 1].ttl + 1))
  }

  /** Prepends the local hop, then renumbers when the old first hop was
      also numbered 1 (the service only reaches this when no hop is
      numbered 1, so the renumbering never fires; see `RenumberNeverFires`). */
  function PrependLocal(hops: seq<Hop>): (r: seq<Hop>)
    ensures |r| == |hops| + 1 && r[0] == LocalHop
    ensures hops == [] || hops[0].hop != 1 ==> r[1..] == hops
    ensures hops != [] && hops[0].hop == 1 ==>
              forall k :: 1 <= k < |r| ==> r[k] == hops[k - 1].(hop := hops[k - 1].hop + 1, ttl := hops[k - 1].ttl + 1)
  {
    var r := [LocalHop] + hops;
    if |r| > 1 && r[1].hop == 1 then ShiftAfterFirst(r) else r
  }

  /** The hop list `parseOutput` returns. */
  function Normalize(hops: seq<Hop>): (r: seq<Hop>)
    ensures hops == [] ==> r == []
    ensures FirstHop1(hops).None? && hops != [] ==> r == [LocalHop] + hops
    ensures FirstHop1(hops).Some? ==>
      var i := FirstHop1(hops).value;
      |r| == |hops| && r[i] == AsLocal(hops[i])
        && forall k :: 0 <= k < |r| && k != i ==> r[k] == hops[k]
  {
    match FirstHop1(hops)
    case Some(i) => hops[i := AsLocal(hops[i])]
    case None =>
      if hops == [] then [] else RenumberNeverFires(hops); PrependLocal(hops)
  }

  /** Without a hop numbered 1 the renumbering branch is dead: the prepended
      list is the local hop followed by the untouched input. */
  lemma RenumberNeverFires(hops: seq<Hop>)
    requires FirstHop1(hops).None?
    ensures PrependLocal(hops) == [LocalHop] + hops
  {
    if hops != [] {
      assert hops[0].hop != 1;
    }
  }

  /** A list "has a local hop 1": some hop is numbered 1, and the first such
      is the local machine. */
  predicate HasLocalHop1(hops: seq<Hop>) {
    FirstHop1(hops).Some?
      && hops[FirstHop1(hops).value].hostname == LocalhostName
      && hops[FirstHop1(hops).value].ip == LoopbackIp
  }

  /** After normalisation a non-empty list has a local hop 1, at the same
      index as the input's first hop 1, or at the front when there was none. */
  lemma NormalizeEstablishesLocalHop1(hops: seq<Hop>)
    requires hops != []
    ensures HasLocalHop1(Normalize(hops))
    ensures FirstHop1(Normalize(hops)) == Some(if FirstHop1(hops).Some? then FirstHop1(hops).value else 0)
  {
    var r := Normalize(hops);
    match FirstHop1(hops)
    case Some(i) =>
      assert forall k :: 0 <= k < i ==> r[k].hop == hops[k].hop;
      SameFirstHop1(hops, r, i);
    case None =>
      assert r[0] == LocalHop;
  }

  /** Two lists whose hops before `i` carry the same numbers, and which both
      have a hop 1 at `i`, have their first hop 1 at the same place. */
  lemma SameFirstHop1(a: seq<Hop>, b: seq<Hop>, i: nat)
    requires FirstHop1(a) == Some(i) && i < |b| && b[i].hop == 1
    requires forall k :: 0 <= k < i ==> k < |b| && b[k].hop == a[k].hop
    ensures FirstHop1(b) == Some(i)
  {
  }

  /** An already normalised list passes through unchanged. */
  lemma NormalizeIdempotent(hops: seq<Hop>)
    ensures Normalize(Normalize(hops)) == Normalize(hops)
  {
    if hops != [] {
      NormalizeEstablishesLocalHop1(hops);
      var r := Normalize(hops);
      var i := FirstHop1(r).value;
      assert AsLocal(r[i]) == r[i];
      assert r[i := AsLocal(r[i])] == r;
    }
  }

  /** Normalisation never drops a hop and adds at most the synthetic one. */
  lemma NormalizeLength(hops: seq<Hop>)
    ensures |Normalize(hops)| == |hops| + (if hops != [] && FirstHop1(hops).None? then 1 else 0)
  {
  }

  /** The first hop is not necessarily the local machine: when hop 1 is not
      the first line, the first hop keeps its own hostname and IP. */
  lemma FirstHopKeptWhenHop1IsLater(hops: seq<Hop>)
    requires hops != [] && hops[0].hop != 1 && FirstHop1(hops).Some?
    ensures Normalize(hops)[0] == hops[0]
  {
  }

  /** The two ways the service can answer, on concrete lists. */
  lemma NormalizeExamples()
    ensures Normalize([Hop(2, 2, "r2", "10.0.0.2", 4), Hop(1, 1, "r1", "10.0.0.1", 1)])
      == [Hop(2, 2, "r2", "10.0.0.2", 4), Hop(1, 1, "localhost", "127.0.0.1", 1)]
    ensures Normalize([Hop(2, 2, "r2", "10.0.0.2", 4)])
      == [Hop(1, 1, "localhost", "127.0.0.1", 0), Hop(2, 2, "r2", "10.0.0.2", 4)]
  {
    var a := [Hop(2, 2, "r2", "10.0.0.2", 4), Hop(1, 1, "r1", "10.0.0.1", 1)];
    assert FirstHop1(a) == Some(1);
    var b := [Hop(2, 2, "r2", "10.0.0.2", 4)];
    assert FirstHop1(b).None?;
  }
}
