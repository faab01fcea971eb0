/**
  `find_pattern`: a lazy scan of the range [start, start + len) that reads
  one pattern-sized window per offset and yields the addresses where the
  pattern matched. The scan ends for good at the first failed read, and the
  range is checked only after a window that did not match.
 */
module Scan {
  import opened Wrappers
  import opened Memory
  import opened Dynamic

  /** The inputs of one `find_pattern` call. */
  datatype Search = Search(mem: Mem, pat: DynPattern, start: nat, len: nat) {

    /** The window read at `start + k`. */
    function Window(k: nat): Result<seq<byte>, MfError> {
      Read(mem, start + k, pat.Size())
    }

    /** The read at offset k failed. */
    predicate Fails(k: nat) {
      Window(k).Err?
    }

    /** The read at offset k succeeded and the pattern matched. */
    predicate Hit(k: nat) {
      Window(k).Ok? && pat.Matches(Window(k).value)
    }

    /** The read at offset k succeeded and the pattern did not match. */
    predicate Miss(k: nat) {
      Window(k).Ok? && !pat.Matches(Window(k).value)
    }

    /** A miss after which the range check lets the scan go on. */
    predicate Passes(k: nat) {
      Miss(k) && k + 1 < len
    }

    /** The probe at offset k ends the scan: a failed read, or a miss that
        takes the cursor to the end of the range. */
    predicate Ends(k: nat) {
      Fails(k) || (Miss(k) && k + 1 >= len)
    }

    /** One call of the iterator's closure, started at cursor `o`. */
    ghost function Step(o: nat): (r: Step)
      ensures r.k >= o
      decreases if o < len then len - o else 0
    {
      if Fails(o) then Stop(o)
      else if Hit(o) then Yield(o)
      else if o + 1 >= len then Stop(o)
      else Step(o + 1)
    }

    /** The addresses of the hits among the offsets 0, ..., n-1, in order. */
    ghost function HitsBelow(n: nat): seq<nat> {
      if n == 0 then []
      else HitsBelow(n - 1) + (if Hit(n - 1) then [start + n - 1] else [])
    }
  }

  /** The outcome of one closure call: a match at offset k (address
      `start + k`, next cursor `k + 1`), or the end of the scan at the probe
      of offset k. */
  datatype Step = Yield(k: nat) | Stop(k: nat)

  ghost predicate Increasing(s: seq<nat>) {
    forall i, j :: 0 <= i < j < |s| ==> s[i] < s[j]
  }

  /** A call that starts at `o` yields offset k exactly when k is a hit and
      every offset from `o` up to k was a miss inside the range. In
      particular the range is not consulted for k itself. */
  lemma {:induction false} StepYield(s: Search, o: nat, k: nat)
    ensures s.Step(o) == Yield(k) <==> o <= k && s.Hit(k) && forall j :: o <= j < k ==> s.Passes(j)
    decreases if o < s.len then s.len - o else 0
  {
    if s.Passes(o) {
      StepYield(s, o + 1, k);
      if o < k {
        assert (forall j :: o <= j < k ==> s.Passes(j)) <==> (forall j :: o + 1 <= j < k ==> s.Passes(j));
      }
    } else if o < k {
      assert !s.Passes(o);
    }
  }

  /** A call that starts at `o` ends the scan at offset k exactly when the
      probe at k ends it and every offset from `o` up to k was a miss inside
      the range: nothing is skipped and nothing is retried. */
  lemma {:induction false} StepStop(s: Search, o: nat, k: nat)
    ensures s.Step(o) == Stop(k) <==> o <= k && s.Ends(k) && forall j :: o <= j < k ==> s.Passes(j)
    decreases if o < s.len then s.len - o else 0
  {
    if s.Passes(o) {
      StepStop(s, o + 1, k);
      if o < k {
        assert (forall j :: o <= j < k ==> s.Passes(j)) <==> (forall j :: o + 1 <= j < k ==> s.Passes(j));
      }
    } else if o < k {
      assert !s.Passes(o);
    }
  }

  /** The hits below n are strictly increasing addresses inside
      [start, start + n), and an offset below n is among them iff it is a
      hit. */
  lemma {:induction false} HitsBelowSpec(s: Search, n: nat)
    ensures Increasing(s.HitsBelow(n))
    ensures forall a :: a in s.HitsBelow(n) ==> s.start <= a < s.start + n
    ensures forall k :: 0 <= k < n ==> (s.start + k in s.HitsBelow(n) <==> s.Hit(k))
  {
    if n > 0 {
      HitsBelowSpec(s, n - 1);
      var h := s.HitsBelow(n - 1);
      assert s.HitsBelow(n) == h + (if s.Hit(n - 1) then [s.start + n - 1] else []);
      forall i, j | 0 <= i < j < |s.HitsBelow(n)|
        ensures s.HitsBelow(n)[i] < s.HitsBelow(n)[j]
      {
        if j == |h| {
          assert s.HitsBelow(n)[i] == h[i];
          assert h[i] in h;
        }
      }
      forall k | 0 <= k < n
        ensures s.start + k in s.HitsBelow(n) <==> s.Hit(k)
      {
        if k < n - 1 {
          assert s.start + k in h <==> s.Hit(k);
        } else {
          assert s.start + k !in h;
        }
      }
    }
  }

  /** Offsets that were passed over add no hits. */
  lemma {:induction false} HitsSkipPasses(s: Search, o: nat, n: nat)
    requires o <= n
    requires forall j :: o <= j < n ==> s.Passes(j)
    ensures s.HitsBelow(n) == s.HitsBelow(o)
  {
    if o < n {
      assert s.Passes(n - 1);
      HitsSkipPasses(s, o, n - 1);
    }
  }

  /** The iterator returned by `find_pattern(pat, start, len)`: the cursor
      `offset`, the `done` flag that `.fuse()` adds, and, for the proofs,
      the addresses yielded so far and the cursor the scan has reached. */
  class Scanner {
    const search: Search
    var offset: nat
    var done: bool
    ghost var yielded: seq<nat>
    ghost var cursor: nat

    /** Every offset below `cursor` was probed and was a hit or a miss
        inside the range; the yielded addresses are exactly the hits; a
        finished scan ended at the probe of `cursor`. */
    ghost predicate Valid()
      reads this
    {
      && yielded == search.HitsBelow(cursor)
      && (forall j :: 0 <= j < cursor ==> search.Hit(j) || search.Passes(j))
      && (!done ==> cursor == offset)
      && (done ==> search.Ends(cursor))
    }

    /** `find_pattern(pat, start, len)`: no read happens until `Next`. */
    constructor (mem: Mem, pat: DynPattern, start: nat, len: nat)
      ensures search == Search(mem, pat, start, len)
      ensures offset == 0 && !done && yielded == [] && cursor == 0
      ensures Valid()
    {
      search := Search(mem, pat, start, len);
      offset := 0;
      done := false;
      yielded := [];
      cursor := 0;
    }

    /** One call of the fused iterator: the next match, or `None` for good.
        After the end the cursor is never used again, so it is left as it
        was. */
    method Next() returns (r: Option<nat>)
      requires Valid()
      modifies this
      ensures Valid()
      ensures old(done) ==> r == None && done && yielded == old(yielded) && offset == old(offset) && cursor == old(cursor)
      ensures !old(done) ==> (match search.Step(old(offset))
        case Yield(k) =>
          && r == Some(search.start + k) && !done && offset == k + 1 && cursor == k + 1
          && yielded == old(yielded) + [search.start + k]
        case Stop(k) => r == None && done && yielded == old(yielded) && offset == old(offset) && cursor == k)
    {
      if done {
        return None;
      }
      var st := ScanStep(search, offset);
      match st {
        case Yield(k) =>
          StepYield(search, offset, k);
          HitsSkipPasses(search, offset, k);
          offset := k + 1;
          yielded := yielded + [search.start + k];
          cursor := k + 1;
          r := Some(search.start + k);
        case Stop(k) =>
          StepStop(search, offset, k);
          HitsSkipPasses(search, offset, k);
          done := true;
          cursor := k;
          r := None;
      }
    }
  }

  /** The body of the iterator's closure: probe the windows from cursor `o`
      on until one matches, a read fails, or a miss reaches the end of the
      range. */
  method ScanStep(s: Search, o: nat) returns (st: Step)
    ensures st == s.Step(o)
  {
    var offset := o;
    while true
      invariant o <= offset
      invariant s.Step(o) == s.Step(offset)
      decreases if offset < s.len then s.len - offset else 0
    {
      var w := Read(s.mem, s.start + offset, s.pat.Size());
      if w.Err? {
        return Stop(offset);
      }
      if s.pat.Matches(w.value) {
        break;
      }
      offset := offset + 1;
      if offset >= s.len {
        return Stop(offset - 1);
      }
    }
    return Yield(offset);
  }

  /** What a scanner has produced: strictly increasing addresses, each one
      the start of a successfully read window that the pattern matched. */
  lemma ScannerYieldsHits(sc: Scanner)
    requires sc.Valid()
    ensures Increasing(sc.yielded)
    ensures forall a :: a in sc.yielded ==> sc.search.start <= a && sc.search.Hit(a - sc.search.start)
  {
    HitsBelowSpec(sc.search, sc.cursor);
  }

  /** The scan skips no position: every offset it has passed that it did
      not yield was read successfully, did not match and lay inside the
      range; in particular the offsets between two consecutive yields. */
  lemma ScannerSkipsNothing(sc: Scanner)
    requires sc.Valid()
    ensures forall k :: 0 <= k < sc.cursor ==> (sc.search.start + k in sc.yielded <==> sc.search.Hit(k))
    ensures forall k :: 0 <= k < sc.cursor && sc.search.start + k !in sc.yielded ==> sc.search.Passes(k)
  {
    HitsBelowSpec(sc.search, sc.cursor);
  }

  /** The window at the cursor is probed before the range is checked: a
      match at an offset at or past `len`, offset 0 of an empty range
      included, is still yielded. */
  lemma ProbeBeforeRangeCheck(s: Search, k: nat)
    requires s.len <= k && s.Hit(k)
    ensures s.Step(k) == Yield(k)
  {
  }
}
