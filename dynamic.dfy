/**
  Byte patterns: one `ByteMatch` per position, either an exact byte or a
  wildcard. `DynPattern` is the heap-allocated pattern of
  src/pattern/dynamic.rs; `Pattern` is the fixed-size `Pattern<N>`, whose
  length N is the length of its element sequence.
 */
module Dynamic {
  import opened Memory

  /** One pattern element. */
  datatype ByteMatch = Exact(b: byte) | Wildcard {
    /** `Exact(b)` accepts only `b`; `Wildcard` accepts every byte. */
    predicate Matches(x: byte) {
      match this
      case Exact(b) => x == b
      case Wildcard => true
    }
  }

  /** The fixed-size pattern `Pattern<N>`: N elements. */
  datatype Pattern = Pattern(elems: seq<ByteMatch>)

  /** The dynamic pattern `DynPattern(Vec<ByteMatch>)`. */
  datatype DynPattern = DynPattern(elems: seq<ByteMatch>) {
    /** `matches`: the elements and the data are zipped and every pair must
        match; `Matcher::matches` is this same predicate. */
    predicate Matches(data: seq<byte>) {
      ZipAll(elems, data)
    }

    /** `Matcher::size`: the element count. */
    function Size(): nat {
      |elems|
    }
  }

  /** `ps.iter().zip(data.iter()).all(|(a, b)| a.matches(*b))`: the walk
      stops at the end of the shorter of the two sequences. */
  predicate ZipAll(ps: seq<ByteMatch>, data: seq<byte>)
    decreases |ps|
  {
    if ps == [] || data == [] then true
    else ps[0].Matches(data[0]) && ZipAll(ps[1..], data[1..])
  }

  function Min(a: nat, b: nat): nat {
    if a < b then a else b
  }

  /** Every pattern element matches the data byte at its position, for the
      positions both sequences have. */
  ghost predicate AgreesOn(ps: seq<ByteMatch>, data: seq<byte>) {
    forall i :: 0 <= i < Min(|ps|, |data|) ==> ps[i].Matches(data[i])
  }

  lemma {:induction false} ZipAllIff(ps: seq<ByteMatch>, data: seq<byte>)
    ensures ZipAll(ps, data) <==> AgreesOn(ps, data)
    decreases |ps|
  {
    if ps != [] && data != [] {
      ZipAllIff(ps[1..], data[1..]);
      assert forall i :: 1 <= i < Min(|ps|, |data|) ==> ps[1..][i - 1] == ps[i] && data[1..][i - 1] == data[i];
    }
  }

  /** `matches(data)` holds iff element i matches `data[i]` for every i
      below the shorter length; data shorter than the pattern is compared
      only on its own length. */
  lemma MatchesIff(p: DynPattern, data: seq<byte>)
    ensures p.Matches(data) <==> forall i :: 0 <= i < Min(p.Size(), |data|) ==> p.elems[i].Matches(data[i])
  {
    ZipAllIff(p.elems, data);
  }

  /** The empty pattern matches every input. */
  lemma EmptyMatchesAll(data: seq<byte>)
    ensures DynPattern([]).Matches(data)
  {
  }

  /** A pattern of only wildcards matches every input. */
  lemma {:induction false} WildcardsMatchAll(p: DynPattern, data: seq<byte>)
    requires forall i :: 0 <= i < |p.elems| ==> p.elems[i] == Wildcard
    ensures p.Matches(data)
  {
    MatchesIff(p, data);
  }

  /** Data bytes past the pattern's length are ignored. */
  lemma MatchesIgnoresTail(p: DynPattern, data: seq<byte>)
    requires |data| >= p.Size()
    ensures p.Matches(data) == p.Matches(data[..p.Size()])
  {
    MatchesIff(p, data);
    MatchesIff(p, data[..p.Size()]);
  }

  /** `From<&[u8]>`: every byte of the slice becomes `Exact`. */
  function FromSlice(s: seq<byte>): (r: DynPattern)
    ensures r.Size() == |s|
    ensures forall i :: 0 <= i < |s| ==> r.elems[i] == Exact(s[i])
  {
    if s == [] then DynPattern([])
    else DynPattern([Exact(s[0])] + FromSlice(s[1..]).elems)
  }

  /** A pattern made only of exact bytes. */
  ghost predicate AllExact(p: DynPattern) {
    forall i :: 0 <= i < |p.elems| ==> p.elems[i].Exact?
  }

  /** An all-`Exact` pattern spelling `s` matches `d` exactly when `s` and
      `d` agree on the positions both have. */
  lemma ExactMatchesIff(p: DynPattern, s: seq<byte>, d: seq<byte>)
    requires p.Size() == |s|
    requires forall i :: 0 <= i < |s| ==> p.elems[i] == Exact(s[i])
    ensures p.Matches(d) <==> s[..Min(|s|, |d|)] == d[..Min(|s|, |d|)]
  {
    var n := Min(|s|, |d|);
    MatchesIff(p, d);
    if p.Matches(d) {
      forall i | 0 <= i < n ensures s[..n][i] == d[..n][i] {
        assert p.elems[i].Matches(d[i]);
      }
      assert s[..n] == d[..n];
    } else {
      var i :| 0 <= i < n && !p.elems[i].Matches(d[i]);
      assert s[..n][i] != d[..n][i];
    }
  }

  /** The pattern built from `s` matches `d` exactly when `s` and `d` agree
      on the positions both have. */
  lemma FromSliceMatchesIff(s: seq<byte>, d: seq<byte>)
    ensures FromSlice(s).Matches(d) <==> s[..Min(|s|, |d|)] == d[..Min(|s|, |d|)]
  {
    ExactMatchesIff(FromSlice(s), s, d);
  }

  /** The pattern built from `s` matches `s` itself and every data that has
      `s` as a prefix. */
  lemma FromSliceMatchesPrefix(s: seq<byte>, t: seq<byte>)
    ensures FromSlice(s).Matches(s + t)
  {
    FromSliceMatchesIff(s, s + t);
    assert (s + t)[..|s|] == s;
  }

  /** `From<Pattern<N>>`: the elements are kept, in order. */
  function FromPattern(n: nat, p: Pattern): (r: DynPattern)
    requires |p.elems| == n
    ensures r.Size() == n
    ensures forall i :: 0 <= i < n ==> r.elems[i] == p.elems[i]
  {
    DynPattern(p.elems)
  }

  /** The converted pattern matches `d` exactly when every element of the
      fixed-size pattern matches the byte of `d` at its position. */
  lemma FromPatternMatches(n: nat, p: Pattern, d: seq<byte>)
    requires |p.elems| == n
    ensures FromPattern(n, p).Matches(d) <==> forall i :: 0 <= i < Min(n, |d|) ==> p.elems[i].Matches(d[i])
  {
    MatchesIff(FromPattern(n, p), d);
  }
}
