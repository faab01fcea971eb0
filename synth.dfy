/**
  `create_pattern`: grow an all-exact signature for `target`, one byte at
  a time, until the scan of the range meets no address other than `target`.
  The loop state is the signature length `size` and the offset `offset`
  from which the next scan resumes.
 */
module Synth {
  import opened Wrappers
  import opened Memory
  import opened Dynamic
  import opened Scan

  /** Offset k does not disturb the uniqueness of `target`: a miss inside
      the range, or a hit at `target` itself. */
  ghost predicate Covered(s: Search, target: nat, k: nat) {
    s.Passes(k) || (s.Hit(k) && s.start + k == target)
  }

  /** The scan of `s` from cursor `o` ends at the probe of offset e, and
      every offset it passed on the way is covered. */
  ghost predicate OnlyTargetUntil(s: Search, target: nat, o: nat, e: nat) {
    o <= e && s.Ends(e) && forall j :: o <= j < e ==> Covered(s, target, j)
  }

  /** The outcomes of one probe exclude each other. */
  lemma Exclusive(s: Search, target: nat, k: nat)
    ensures !(s.Passes(k) && s.Hit(k)) && !(s.Ends(k) && s.Hit(k)) && !(s.Ends(k) && s.Passes(k))
    ensures Covered(s, target, k) ==> s.Passes(k) || s.Hit(k)
  {
  }

  lemma CoveredBefore(s: Search, target: nat, o: nat, e: nat, j: nat)
    ensures OnlyTargetUntil(s, target, o, e) && o <= j < e ==> Covered(s, target, j)
  {
  }

  /** The first address other than `target` that the scan of `s` yields
      from cursor `o` on: where the `for` loop of `create_pattern` breaks. */
  ghost function FirstOther(s: Search, target: nat, o: nat): (r: Option<nat>)
    ensures r.Some? ==> s.start + o <= r.value && r.value != target
    decreases if s.start + o <= target then target + 1 - (s.start + o) else 0
  {
    match s.Step(o)
    case Stop(_) => None
    case Yield(k) =>
      if s.start + k != target then Some(s.start + k)
      else FirstOther(s, target, k + 1)
  }

  /** The scan meets a first other address at offset k exactly when k is a
      hit away from `target` and every offset before it is covered. */
  lemma {:induction false} FirstOtherSome(s: Search, target: nat, o: nat, k: nat)
    ensures FirstOther(s, target, o) == Some(s.start + k) <==>
      o <= k && s.start + k != target && s.Hit(k) && forall j :: o <= j < k ==> Covered(s, target, j)
    decreases if s.start + o <= target then target + 1 - (s.start + o) else 0
  {
    Exclusive(s, target, k);
    match s.Step(o)
    case Stop(e) =>
      StepStop(s, o, e);
      Exclusive(s, target, e);
    case Yield(y) =>
      StepYield(s, o, y);
      Exclusive(s, target, y);
      if s.start + y == target {
        FirstOtherSome(s, target, y + 1, k);
        if o <= k < y {
          assert s.Passes(k);
        } else if y < k {
          assert Covered(s, target, y);
          assert (forall j :: o <= j < k ==> Covered(s, target, j)) <==> (forall j :: y + 1 <= j < k ==> Covered(s, target, j));
        }
      } else {
        if o <= k < y {
          assert s.Passes(k);
        } else if y < k {
          assert !Covered(s, target, y);
        }
      }
  }

  /** Passing the hit at `target` changes nothing about where the scan
      ends or what it covers on the way. */
  lemma TargetSkip(s: Search, target: nat, o: nat, y: nat)
    requires s.Step(o) == Yield(y) && s.start + y == target
    ensures forall e: nat :: OnlyTargetUntil(s, target, o, e) <==> OnlyTargetUntil(s, target, y + 1, e)
  {
    StepYield(s, o, y);
    Exclusive(s, target, y);
    forall e: nat | OnlyTargetUntil(s, target, o, e)
      ensures OnlyTargetUntil(s, target, y + 1, e)
    {
      Exclusive(s, target, e);
    }
    forall e: nat | OnlyTargetUntil(s, target, y + 1, e)
      ensures OnlyTargetUntil(s, target, o, e)
    {
      assert Covered(s, target, y);
    }
  }

  /** The scan meets no other address exactly when it ends, at some probe,
      having passed only misses inside the range and `target` itself. */
  lemma {:induction false} FirstOtherNone(s: Search, target: nat, o: nat)
    ensures FirstOther(s, target, o) == None <==> exists e :: OnlyTargetUntil(s, target, o, e)
    decreases if s.start + o <= target then target + 1 - (s.start + o) else 0
  {
    match s.Step(o)
    case Stop(e) =>
      StepStop(s, o, e);
      assert OnlyTargetUntil(s, target, o, e);
    case Yield(y) =>
      StepYield(s, o, y);
      Exclusive(s, target, y);
      if s.start + y == target {
        FirstOtherNone(s, target, y + 1);
        TargetSkip(s, target, o, y);
        assert FirstOther(s, target, o) == FirstOther(s, target, y + 1);
        if FirstOther(s, target, y + 1) == None {
          var e :| OnlyTargetUntil(s, target, y + 1, e);
          assert OnlyTargetUntil(s, target, o, e);
        }
      } else if e: nat :| OnlyTargetUntil(s, target, o, e) {
        Exclusive(s, target, e);
        CoveredBefore(s, target, o, e, y);
        assert false;
      }
  }

  /** The scan `create_pattern` runs for the candidate `bytes`: from
      `start + offset` over the `len - offset` bytes left. */
  function CandidateScan(mem: Mem, bytes: seq<byte>, start: nat, len: nat, offset: nat): Search
    requires offset <= len
  {
    Search(mem, FromSlice(bytes), start + offset, len - offset)
  }

  /** The outcome of `create_pattern` from loop state (size, offset): read
      `size` bytes at `target`, scan with them from `start + offset`, and
      either return them as the signature or grow by one byte and resume
      at the collision. `len - offset` must not underflow. */
  ghost function CreateFrom(mem: Mem, target: nat, start: nat, len: nat, max: Option<nat>, size: nat, offset: nat)
    : (r: Result<Option<DynPattern>, MfError>)
    ensures r.Err? ==> r.error == ReadFailed || r.error == LengthUnderflow
    decreases |mem.Keys| + 1 - size
  {
    match Read(mem, target, size)
    case Err(e) => Err(e)
    case Ok(bytes) =>
      if offset > len then Err(LengthUnderflow)
      else
        MappedBound(mem, target, size);
        match FirstOther(CandidateScan(mem, bytes, start, len, offset), target, 0)
        case None => Ok(Some(FromSlice(bytes)))
        case Some(oc) =>
          if max.Some? && size + 1 > max.value then Ok(None)
          else CreateFrom(mem, target, start, len, max, size + 1, oc - start)
  }

  /** From cursor `o` on, the scan of `p` over [start + o, start + len)
      meets no address other than `target`. */
  ghost predicate UniqueFrom(mem: Mem, p: DynPattern, target: nat, start: nat, len: nat, o: nat) {
    o <= len && FirstOther(Search(mem, p, start + o, len - o), target, 0) == None
  }

  /** The `for` loop of `create_pattern`: run the scanner and stop at the
      first address other than `target`. */
  method FirstCollision(s: Search, target: nat) returns (collision: Option<nat>)
    ensures collision == FirstOther(s, target, 0)
  {
    var sc := new Scanner(s.mem, s.pat, s.start, s.len);
    while true
      invariant fresh(sc) && sc.Valid() && sc.search == s && !sc.done
      invariant FirstOther(s, target, 0) == FirstOther(s, target, sc.offset)
      decreases if s.start + sc.offset <= target then target + 1 - (s.start + sc.offset) else 0
    {
      var oc := sc.Next();
      match oc {
        case None =>
          return None;
        case Some(a) =>
          if a != target {
            return Some(a);
          }
      }
    }
  }

  /** Moving the start of a scan forward by k probes of the same windows
      does not change whether it meets an address other than `target`. */
  lemma ShiftUnique(mem: Mem, p: DynPattern, target: nat, a: nat, l: nat, k: nat)
    requires k <= l
    ensures FirstOther(Search(mem, p, a, l), target, k) == None <==>
            FirstOther(Search(mem, p, a + k, l - k), target, 0) == None
  {
    var s1 := Search(mem, p, a, l);
    var s2 := Search(mem, p, a + k, l - k);
    forall j: nat
      ensures Covered(s1, target, k + j) == Covered(s2, target, j)
      ensures s1.Ends(k + j) == s2.Ends(j)
    {
      assert s1.Window(k + j) == s2.Window(j);
    }
    FirstOtherNone(s1, target, k);
    FirstOtherNone(s2, target, 0);
    if e: nat :| OnlyTargetUntil(s1, target, k, e) {
      assert s1.Ends(k + (e - k));
      forall j | 0 <= j < e - k ensures Covered(s2, target, j) {
        assert Covered(s1, target, k + j);
      }
      assert OnlyTargetUntil(s2, target, 0, e - k);
    }
    if e: nat :| OnlyTargetUntil(s2, target, 0, e) {
      forall j | k <= j < k + e ensures Covered(s1, target, j) {
        assert Covered(s2, target, j - k);
        assert j == k + (j - k);
      }
      assert OnlyTargetUntil(s1, target, k, k + e);
    }
  }

  /** A window that the pattern of `bp` matches is matched by the pattern of
      any prefix `bc` of `bp` as well. */
  lemma LongerHitIsShorterHit(mem: Mem, bc: seq<byte>, bp: seq<byte>, a: nat, l: nat, j: nat)
    requires |bc| <= |bp| && bc == bp[..|bc|]
    ensures Search(mem, FromSlice(bp), a, l).Hit(j) ==> Search(mem, FromSlice(bc), a, l).Hit(j)
  {
    var rp := Read(mem, a + j, |bp|);
    var rc := Read(mem, a + j, |bc|);
    assert Search(mem, FromSlice(bp), a, l).Window(j) == rp;
    assert Search(mem, FromSlice(bc), a, l).Window(j) == rc;
    if rp.Ok? && FromSlice(bp).Matches(rp.value) {
      FromSliceMatchesIff(bp, rp.value);
      assert bp == rp.value;
      assert rc.Ok?;
      assert rc.value == bc;
      FromSliceMatchesIff(bc, bc);
    }
  }

  /** A pattern built from the very bytes of a window matches there. */
  lemma OwnWindowHit(s: Search, bp: seq<byte>, j: nat)
    requires s.pat == FromSlice(bp) && s.Window(j) == Ok(bp)
    ensures s.Hit(j)
  {
    FromSliceMatchesIff(bp, bp);
  }

  /** If every offset in [o, k) is covered for the candidate `bc`, the
      longer signature `bp` read at `target` meets no other address from o
      as soon as it meets none from k. */
  lemma {:induction false} PrefixUnique(mem: Mem, bc: seq<byte>, bp: seq<byte>, a: nat, l: nat, target: nat, o: nat, k: nat)
    requires |bc| <= |bp| && bc == bp[..|bc|] && Read(mem, target, |bp|) == Ok(bp)
    requires o <= k && forall j :: o <= j < k ==> Covered(Search(mem, FromSlice(bc), a, l), target, j)
    requires FirstOther(Search(mem, FromSlice(bp), a, l), target, k) == None
    ensures FirstOther(Search(mem, FromSlice(bp), a, l), target, o) == None
    decreases k - o
  {
    if o < k {
      PrefixUnique(mem, bc, bp, a, l, target, o + 1, k);
      var sc := Search(mem, FromSlice(bc), a, l);
      var sp := Search(mem, FromSlice(bp), a, l);
      assert Covered(sc, target, o);
      LongerHitIsShorterHit(mem, bc, bp, a, l, o);
      if sp.Fails(o) {
        assert sp.Step(o) == Stop(o);
      } else if sc.Passes(o) {
        assert sp.Step(o) == sp.Step(o + 1);
      } else {
        assert sp.Window(o) == Read(mem, target, |bp|);
        OwnWindowHit(sp, bp, o);
        assert sp.Step(o) == Yield(o);
      }
    }
  }

  /** Every offset a scan passed before its first other address is
      covered. */
  lemma CoveredBeforeCollision(s: Search, target: nat, k: nat)
    requires FirstOther(s, target, 0) == Some(s.start + k)
    ensures forall j :: 0 <= j < k ==> Covered(s, target, j)
  {
    FirstOtherSome(s, target, 0, k);
  }

  /** Uniqueness from offset `next` of the range, seen from a scan of the
      same pattern that starts at the earlier offset `offset`. */
  lemma UniqueFromShift(mem: Mem, p: DynPattern, target: nat, start: nat, len: nat, offset: nat, next: nat)
    requires offset <= next && UniqueFrom(mem, p, target, start, len, next)
    ensures FirstOther(Search(mem, p, start + offset, len - offset), target, next - offset) == None
  {
    ShiftUnique(mem, p, target, start + offset, len - offset, next - offset);
    assert start + offset + (next - offset) == start + next;
  }

  /** Uniqueness carries back over a collision: a signature that meets no
      other address from the collision `oc` on meets none from the offset
      where the shorter candidate's scan started either. */
  lemma UniqueBack(mem: Mem, target: nat, start: nat, len: nat, offset: nat, bc: seq<byte>, oc: nat, p: DynPattern)
    requires offset <= len
    requires FirstOther(CandidateScan(mem, bc, start, len, offset), target, 0) == Some(oc)
    requires Mapped(mem, target, p.Size()) && p == FromSlice(Read(mem, target, p.Size()).value)
    requires |bc| <= p.Size() && bc == Read(mem, target, p.Size()).value[..|bc|]
    requires UniqueFrom(mem, p, target, start, len, oc - start)
    ensures UniqueFrom(mem, p, target, start, len, offset)
  {
    var sc := CandidateScan(mem, bc, start, len, offset);
    var k: nat := oc - sc.start;
    CoveredBeforeCollision(sc, target, k);
    UniqueFromShift(mem, p, target, start, len, offset, oc - start);
    PrefixUnique(mem, bc, Read(mem, target, p.Size()).value, start + offset, len - offset, target, 0, k);
  }

  /** `create_pattern(target, start, len, max)`. */
  method CreatePattern(mem: Mem, target: nat, start: nat, len: nat, max: Option<nat>)
    returns (r: Result<Option<DynPattern>, MfError>)
    ensures r == CreateFrom(mem, target, start, len, max, 3, 0)
  {
    var size: nat := 3;
    var offset: nat := 0;
    while true
      invariant CreateFrom(mem, target, start, len, max, 3, 0) == CreateFrom(mem, target, start, len, max, size, offset)
      decreases |mem.Keys| + 1 - size
    {
      var rd := Read(mem, target, size);
      if rd.Err? {
        return Err(rd.error);
      }
      var pat := rd.value;
      MappedBound(mem, target, size);
      if offset > len {
        return Err(LengthUnderflow);
      }
      var collision := FirstCollision(CandidateScan(mem, pat, start, len, offset), target);
      var done := true;
      if collision.Some? {
        size := size + 1;
        offset := collision.value - start;
        done := false;
        if max.Some? && size > max.value {
          return Ok(None);
        }
      }
      if done {
        return Ok(Some(FromSlice(pat)));
      }
    }
  }

  /** One iteration of `create_pattern` whose scan found a collision `oc`:
      give up at the budget, or grow by one byte and resume at `oc`. */
  lemma CreateCollides(mem: Mem, target: nat, start: nat, len: nat, max: Option<nat>, size: nat, offset: nat, oc: nat)
    requires Mapped(mem, target, size) && offset <= len
    requires FirstOther(CandidateScan(mem, Read(mem, target, size).value, start, len, offset), target, 0) == Some(oc)
    ensures start + offset <= oc
    ensures CreateFrom(mem, target, start, len, max, size, offset) ==
            if max.Some? && size + 1 > max.value then Ok(None)
            else CreateFrom(mem, target, start, len, max, size + 1, oc - start)
  {
  }

  /** One iteration of `create_pattern` whose scan found no collision:
      the candidate is the result. */
  lemma CreateSettles(mem: Mem, target: nat, start: nat, len: nat, max: Option<nat>, size: nat, offset: nat)
    requires Mapped(mem, target, size) && offset <= len
    requires FirstOther(CandidateScan(mem, Read(mem, target, size).value, start, len, offset), target, 0) == None
    ensures CreateFrom(mem, target, start, len, max, size, offset) == Ok(Some(FromSlice(Read(mem, target, size).value)))
  {
  }

  /** A returned signature is the bytes at `target`, every one `Exact`, no
      shorter than the size the loop started from, and within the budget
      whenever it grew. */
  lemma {:induction false} CreateShape(mem: Mem, target: nat, start: nat, len: nat, max: Option<nat>,
                                       size: nat, offset: nat, p: DynPattern)
    requires CreateFrom(mem, target, start, len, max, size, offset) == Ok(Some(p))
    ensures p.Size() >= size && AllExact(p)
    ensures Mapped(mem, target, p.Size()) && p == FromSlice(Read(mem, target, p.Size()).value)
    ensures max.Some? && p.Size() > size ==> p.Size() <= max.value
    decreases |mem.Keys| + 1 - size, 1
  {
    MappedBound(mem, target, size);
    var s := CandidateScan(mem, Read(mem, target, size).value, start, len, offset);
    match FirstOther(s, target, 0)
    case None =>
      CreateSettles(mem, target, start, len, max, size, offset);
    case Some(oc) =>
      CreateCollides(mem, target, start, len, max, size, offset, oc);
      ShapeGrow(mem, target, start, len, max, size, oc - start, p);
  }

  /** A growth step the budget allowed, then the rest of the run. */
  lemma {:induction false} ShapeGrow(mem: Mem, target: nat, start: nat, len: nat, max: Option<nat>,
                                     size: nat, next: nat, p: DynPattern)
    requires Mapped(mem, target, size) && !(max.Some? && size + 1 > max.value)
    requires CreateFrom(mem, target, start, len, max, size + 1, next) == Ok(Some(p))
    ensures p.Size() > size && AllExact(p)
    ensures Mapped(mem, target, p.Size()) && p == FromSlice(Read(mem, target, p.Size()).value)
    ensures max.Some? ==> p.Size() <= max.value
    decreases |mem.Keys| + 1 - size, 0
  {
    MappedBound(mem, target, size);
    CreateShape(mem, target, start, len, max, size + 1, next, p);
  }

  /** A returned signature is unique in the range: a fresh scan of it from
      the loop state's offset (the whole range, for the call from offset 0)
      meets no address other than `target`. */
  lemma {:induction false} CreateUnique(mem: Mem, target: nat, start: nat, len: nat, max: Option<nat>,
                                        size: nat, offset: nat, p: DynPattern)
    requires CreateFrom(mem, target, start, len, max, size, offset) == Ok(Some(p))
    ensures UniqueFrom(mem, p, target, start, len, offset)
    decreases |mem.Keys| + 1 - size, 1
  {
    MappedBound(mem, target, size);
    var bytes := Read(mem, target, size).value;
    var s := CandidateScan(mem, bytes, start, len, offset);
    match FirstOther(s, target, 0)
    case None =>
      CreateSettles(mem, target, start, len, max, size, offset);
    case Some(oc) =>
      CreateCollides(mem, target, start, len, max, size, offset, oc);
      UniqueGrow(mem, target, start, len, max, size, offset, oc, p);
  }

  /** After a collision at `oc`, the rest of the run returns a signature
      unique from `oc` on, hence from `offset` on. */
  lemma {:induction false} UniqueGrow(mem: Mem, target: nat, start: nat, len: nat, max: Option<nat>,
                                      size: nat, offset: nat, oc: nat, p: DynPattern)
    requires Mapped(mem, target, size) && offset <= len
    requires FirstOther(CandidateScan(mem, Read(mem, target, size).value, start, len, offset), target, 0) == Some(oc)
    requires start + offset <= oc
    requires CreateFrom(mem, target, start, len, max, size + 1, oc - start) == Ok(Some(p))
    ensures UniqueFrom(mem, p, target, start, len, offset)
    decreases |mem.Keys| + 1 - size, 0
  {
    MappedBound(mem, target, size);
    CreateUnique(mem, target, start, len, max, size + 1, oc - start, p);
    CreateShape(mem, target, start, len, max, size + 1, oc - start, p);
    UniqueFromCollision(mem, target, start, len, size, offset, oc, p);
  }

  /** The candidate of `size` bytes is a prefix of the longer signature that
      is unique from its collision `oc` on, so that signature is unique from
      `offset` on. */
  lemma UniqueFromCollision(mem: Mem, target: nat, start: nat, len: nat, size: nat, offset: nat, oc: nat, p: DynPattern)
    requires Mapped(mem, target, size) && offset <= len
    requires FirstOther(CandidateScan(mem, Read(mem, target, size).value, start, len, offset), target, 0) == Some(oc)
    requires p.Size() >= size && Mapped(mem, target, p.Size()) && p == FromSlice(Read(mem, target, p.Size()).value)
    requires UniqueFrom(mem, p, target, start, len, oc - start)
    ensures UniqueFrom(mem, p, target, start, len, offset)
  {
    ReadPrefix(mem, target, size, p.Size());
    UniqueBack(mem, target, start, len, offset, Read(mem, target, size).value, oc, p);
  }

  /** The size at which a budget `max` stops a search that started at
      `size`: `max` itself, or `size` when that is already larger. */
  function BudgetSize(size: nat, max: nat): (m: nat)
    ensures m >= size && m >= max && (m == size || m == max)
  {
    if size < max then max else size
  }

  /** `Ok(None)` comes only from a budget: `max` is set, every read at
      `target` up to the budget size succeeded, and the candidate of that
      size still met an address other than `target` in a scan of the range
      from some offset: no signature was found within `max` bytes. */
  lemma {:induction false} CreateBudget(mem: Mem, target: nat, start: nat, len: nat, max: Option<nat>,
                                        size: nat, offset: nat)
    requires CreateFrom(mem, target, start, len, max, size, offset) == Ok(None)
    ensures max.Some?
    ensures Mapped(mem, target, BudgetSize(size, max.value))
    ensures exists o: nat :: && o <= len
                             && FirstOther(CandidateScan(mem, Read(mem, target, BudgetSize(size, max.value)).value, start, len, o), target, 0).Some?
    decreases |mem.Keys| + 1 - size
  {
    var bytes := Read(mem, target, size).value;
    MappedBound(mem, target, size);
    var s := CandidateScan(mem, bytes, start, len, offset);
    match FirstOther(s, target, 0)
    case Some(oc) =>
      if !(max.Some? && size + 1 > max.value) {
        CreateBudget(mem, target, start, len, max, size + 1, oc - start);
        assert BudgetSize(size + 1, max.value) == BudgetSize(size, max.value);
      } else {
        assert BudgetSize(size, max.value) == size;
        assert offset <= len;
      }
  }

  /** A budget only cuts the unbounded search short: with budget m, the
      search returns the signature the unbounded search finds when it fits
      in m bytes or needed no growth, and `Ok(None)` otherwise. */
  lemma {:induction false} BudgetCut(mem: Mem, target: nat, start: nat, len: nat, m: nat,
                                     size: nat, offset: nat, p: DynPattern)
    requires CreateFrom(mem, target, start, len, None, size, offset) == Ok(Some(p))
    ensures CreateFrom(mem, target, start, len, Some(m), size, offset) ==
            if p.Size() <= m || p.Size() == size then Ok(Some(p)) else Ok(None)
    decreases |mem.Keys| + 1 - size, 1
  {
    MappedBound(mem, target, size);
    var s := CandidateScan(mem, Read(mem, target, size).value, start, len, offset);
    match FirstOther(s, target, 0)
    case None =>
      CreateSettles(mem, target, start, len, None, size, offset);
      CreateSettles(mem, target, start, len, Some(m), size, offset);
    case Some(oc) =>
      CreateCollides(mem, target, start, len, None, size, offset, oc);
      CreateCollides(mem, target, start, len, Some(m), size, offset, oc);
      BudgetGrow(mem, target, start, len, m, size, oc - start, p);
  }

  /** The budget check of one growth step, then the rest of the run. */
  lemma {:induction false} BudgetGrow(mem: Mem, target: nat, start: nat, len: nat, m: nat,
                                      size: nat, next: nat, p: DynPattern)
    requires CreateFrom(mem, target, start, len, None, size + 1, next) == Ok(Some(p))
    ensures (if size + 1 > m then Ok(None) else CreateFrom(mem, target, start, len, Some(m), size + 1, next)) ==
            if p.Size() <= m || p.Size() == size then Ok(Some(p)) else Ok(None)
    decreases |mem.Keys| + 1 - size, 0
  {
    CreateShape(mem, target, start, len, None, size + 1, next, p);
    MappedBound(mem, target, p.Size());
    if size + 1 <= m {
      BudgetCut(mem, target, start, len, m, size + 1, next, p);
    }
  }

  /** An error is either the underflow of `len - offset` or a failed read
      at `target`, of a size no larger than the budget allows. */
  lemma {:induction false} CreateFailure(mem: Mem, target: nat, start: nat, len: nat, max: Option<nat>,
                                         size: nat, offset: nat, e: MfError)
    requires CreateFrom(mem, target, start, len, max, size, offset) == Err(e)
    ensures e == ReadFailed || e == LengthUnderflow
    ensures e == ReadFailed ==> exists n :: size <= n && !Mapped(mem, target, n) && (max.None? || n <= max.value || n == size)
    decreases |mem.Keys| + 1 - size
  {
    if !Mapped(mem, target, size) {
      return;
    }
    var bytes := Read(mem, target, size).value;
    MappedBound(mem, target, size);
    if offset <= len {
      var s := CandidateScan(mem, bytes, start, len, offset);
      match FirstOther(s, target, 0)
      case Some(oc) =>
        CreateFailure(mem, target, start, len, max, size + 1, oc - start, e);
    }
  }

  /** `len - offset` underflows only when `target` is `start + len`, the
      first address past the range: a collision past the range is reached
      only through a hit at `target` on the probe the range check skips. */
  lemma {:induction false} CreateUnderflow(mem: Mem, target: nat, start: nat, len: nat, max: Option<nat>,
                                           size: nat, offset: nat)
    requires offset <= len
    requires CreateFrom(mem, target, start, len, max, size, offset) == Err(LengthUnderflow)
    ensures target == start + len
    decreases |mem.Keys| + 1 - size
  {
    var bytes := Read(mem, target, size).value;
    MappedBound(mem, target, size);
    var s := CandidateScan(mem, bytes, start, len, offset);
    match FirstOther(s, target, 0)
    case Some(oc) =>
      if oc - start <= len {
        CreateUnderflow(mem, target, start, len, max, size + 1, oc - start);
      } else {
        var k: nat := oc - s.start;
        FirstOtherSome(s, target, 0, k);
        assert Covered(s, target, len - offset);
      }
  }

  /** The underflow happens: with `len == 0` and `target == start`, a
      repeated byte makes the scan hit `target`, go on past the range and
      collide at `target + 1`. */
  lemma UnderflowReachable()
    ensures CreateFrom(map[0 := 7, 1 := 7, 2 := 7, 3 := 7], 0, 0, 0, None, 3, 0) == Err(LengthUnderflow)
  {
    var mem: Mem := map[0 := 7, 1 := 7, 2 := 7, 3 := 7];
    var bytes := Read(mem, 0, 3).value;
    assert bytes == [7, 7, 7];
    var s := CandidateScan(mem, bytes, 0, 0, 0);
    assert Mapped(mem, 1, 3);
    var w := Read(mem, 1, 3).value;
    assert w == [w[0], w[1], w[2]] == [7, 7, 7];
    assert s.Window(0) == Ok([7, 7, 7]) && s.Window(1) == Ok([7, 7, 7]);
    assert s.Step(0) == Yield(0);
    assert s.Step(1) == Yield(1);
    assert FirstOther(s, 0, 0) == Some(1);
    assert Read(mem, 0, 4).Ok?;
  }

  /** A 3-byte candidate that the first scan finds unique is returned as it
      is, whatever the budget, even one below 3. */
  lemma UniqueAtThree(mem: Mem, target: nat, start: nat, len: nat, max: Option<nat>)
    requires Mapped(mem, target, 3)
    requires FirstOther(CandidateScan(mem, Read(mem, target, 3).value, start, len, 0), target, 0) == None
    ensures CreateFrom(mem, target, start, len, max, 3, 0) == Ok(Some(FromSlice(Read(mem, target, 3).value)))
  {
  }
}
