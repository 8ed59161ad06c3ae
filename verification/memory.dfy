/**
 Byte memory, and runs of stores and fetches on it: which bytes a fetch finds.
 */
module Memories {

  type Memory = seq<bv8>

  datatype Order = BE | LE

  function Put(m: Memory, p: nat, bytes: seq<bv8>): (r: Memory)
    requires p + |bytes| <= |m|
    ensures |r| == |m|
  {
    m[..p] + bytes + m[p + |bytes|..]
  }

  /** Bytes put at p are the bytes found there. */
  lemma PutIsFound(m: Memory, p: nat, bytes: seq<bv8>)
    requires p + |bytes| <= |m|
    ensures Put(m, p, bytes)[p..p + |bytes|] == bytes
  {
  }

  /** Nothing else changes. */
  lemma PutElsewhere(m: Memory, p: nat, bytes: seq<bv8>, q: nat, n: nat)
    requires p + |bytes| <= |m| && q + n <= |m|
    requires p + |bytes| <= q || q + n <= p
    ensures Put(m, p, bytes)[q..q + n] == m[q..q + n]
  {
    var r := Put(m, p, bytes);
    forall i | q <= i < q + n
      ensures r[i] == m[i]
    {
    }
  }

  /** One access: bytes stored, or bytes fetched to be read in an order. */
  datatype Effect =
    | Store(at: nat, bytes: seq<bv8>)
    | Fetch(order: Order, at: nat, width: nat)

  function Width(e: Effect): nat {
    if e.Store? then |e.bytes| else e.width
  }

  predicate Fit(run: seq<Effect>, size: nat) {
    forall i :: 0 <= i < |run| ==> run[i].at + Width(run[i]) <= size
  }

  datatype Found = Found(order: Order, bytes: seq<bv8>)

  datatype Result = Result(memory: Memory, found: seq<Found>)

  function Apply(e: Effect, m: Memory): (r: Result)
    requires e.at + Width(e) <= |m|
    ensures |r.memory| == |m|
  {
    match e
    case Store(at, bytes) => Result(Put(m, at, bytes), [])
    case Fetch(order, at, width) => Result(m, [Found(order, m[at..at + width])])
  }

  function Run(run: seq<Effect>, m: Memory): (r: Result)
    requires Fit(run, |m|)
    ensures |r.memory| == |m|
  {
    if run == [] then Result(m, [])
    else
      var first := Apply(run[0], m);
      var rest := Run(run[1..], first.memory);
      Result(rest.memory, first.found + rest.found)
  }

  /** A run may be taken a step at a time, with what was found so far kept. */
  lemma RunStep(run: seq<Effect>, m: Memory, before: seq<Found>, later: seq<Found>)
    requires run != [] && Fit(run, |m|)
    requires later == Run(run[1..], Apply(run[0], m).memory).found
    ensures Run(run, m).memory == Run(run[1..], Apply(run[0], m).memory).memory
    ensures before + Run(run, m).found == before + Apply(run[0], m).found + later
  {
    var now := Apply(run[0], m).found;
    assert Run(run, m).found == now + later;
    assert before + (now + later) == before + now + later;
  }

  /** A step that stores nothing between p and p + n. */
  predicate Spares(e: Effect, p: nat, n: nat) {
    e.Store? ==> e.at + |e.bytes| <= p || p + n <= e.at
  }

  lemma SparedByOne(e: Effect, m: Memory, p: nat, n: nat)
    requires e.at + Width(e) <= |m| && p + n <= |m| && Spares(e, p, n)
    ensures Apply(e, m).memory[p..p + n] == m[p..p + n]
  {
    if e.Store? {
      PutElsewhere(m, e.at, e.bytes, p, n);
    }
  }

  /** Bytes that no step stores over survive the whole run. */
  lemma {:induction false} SparedBytesSurvive(run: seq<Effect>, m: Memory, p: nat, bytes: seq<bv8>)
    requires Fit(run, |m|) && p + |bytes| <= |m| && m[p..p + |bytes|] == bytes
    requires forall i :: 0 <= i < |run| ==> Spares(run[i], p, |bytes|)
    ensures Run(run, m).memory[p..p + |bytes|] == bytes
  {
    if run != [] {
      SparedByOne(run[0], m, p, |bytes|);
      SparedBytesSurvive(run[1..], Apply(run[0], m).memory, p, bytes);
    }
  }

  /** Stored bytes are still there after any later run that spares them. */
  lemma LastStoreSurvives(m: Memory, p: nat, bytes: seq<bv8>, later: seq<Effect>)
    requires p + |bytes| <= |m| && Fit(later, |m|)
    requires forall i :: 0 <= i < |later| ==> Spares(later[i], p, |bytes|)
    ensures Run(later, Put(m, p, bytes)).memory[p..p + |bytes|] == bytes
  {
    PutIsFound(m, p, bytes);
    SparedBytesSurvive(later, Put(m, p, bytes), p, bytes);
  }

  /** How many of the first n steps are fetches. */
  function Fetches(run: seq<Effect>, n: nat): nat
    requires n <= |run|
  {
    if n == 0 then 0 else (if run[0].Fetch? then 1 else 0) + Fetches(run[1..], n - 1)
  }

  lemma {:induction false} AllFetchesFound(run: seq<Effect>, m: Memory)
    requires Fit(run, |m|)
    ensures |Run(run, m).found| == Fetches(run, |run|)
  {
    if run != [] {
      AllFetchesFound(run[1..], Apply(run[0], m).memory);
    }
  }

  /** A fetch of bytes that no step before it stores over finds what was there
      before the run. */
  lemma {:induction false} OriginalFound(run: seq<Effect>, m: Memory, j: nat)
    requires Fit(run, |m|) && j < |run| && run[j].Fetch?
    requires forall k :: 0 <= k < j ==> Spares(run[k], run[j].at, run[j].width)
    ensures Fetches(run, j) < |Run(run, m).found|
    ensures Run(run, m).found[Fetches(run, j)] ==
            Found(run[j].order, m[run[j].at..run[j].at + run[j].width])
    decreases j
  {
    if j > 0 {
      SparedByOne(run[0], m, run[j].at, run[j].width);
      OriginalFound(run[1..], Apply(run[0], m).memory, j - 1);
    }
  }

  /** A fetch of bytes that are as a store left them finds the bytes stored. */
  lemma {:induction false} StoredFound(run: seq<Effect>, m: Memory, i: nat, j: nat)
    requires Fit(run, |m|) && i < j < |run| && run[i].Store? && run[j].Fetch?
    requires run[j].at == run[i].at && run[j].width == |run[i].bytes|
    requires forall k :: i < k < j ==> Spares(run[k], run[j].at, run[j].width)
    ensures Fetches(run, j) < |Run(run, m).found|
    ensures Run(run, m).found[Fetches(run, j)] == Found(run[j].order, run[i].bytes)
    decreases i
  {
    var next := Apply(run[0], m).memory;
    if i > 0 {
      StoredFound(run[1..], next, i - 1, j - 1);
    } else {
      PutIsFound(m, run[0].at, run[0].bytes);
      OriginalFound(run[1..], next, j - 1);
    }
  }
}
