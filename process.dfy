/**
  The remaining operations of `OwnedProcess` that the byte-signature engine
  offers: following a multilevel pointer, reading a zero-terminated string,
  and the module-scoped entry points of the scanner and the synthesiser.
 */
module Process {
  import opened Wrappers
  import opened Memory
  import opened Dynamic
  import opened Scan
  import opened Synth

  // ----- resolve_multilevel -----

  /** The left fold `base := read_word(base + o)` over the offsets, which
      stops at the first failed read. */
  ghost function Resolve(mem: Mem, base: nat, offsets: seq<nat>): (r: Result<nat, MfError>)
    ensures r.Err? ==> r.error == ReadFailed
    ensures r.Ok? && offsets != [] ==> r.value < Pow256(WORD_SIZE)
    decreases |offsets|
  {
    if offsets == [] then Ok(base)
    else match ReadWord(mem, base + offsets[0])
      case Err(e) => Err(e)
      case Ok(w) => Resolve(mem, w, offsets[1..])
  }

  /** Resolving a concatenation resolves the first part and continues from
      its result; an error in the first part is the result and the second
      part is never consulted. */
  lemma {:induction false} ResolveConcat(mem: Mem, base: nat, xs: seq<nat>, ys: seq<nat>)
    ensures Resolve(mem, base, xs + ys) ==
      (match Resolve(mem, base, xs)
       case Err(e) => Err(e)
       case Ok(b) => Resolve(mem, b, ys))
    decreases |xs|
  {
    if xs == [] {
      assert xs + ys == ys;
    } else {
      assert (xs + ys)[0] == xs[0] && (xs + ys)[1..] == xs[1..] + ys;
      match ReadWord(mem, base + xs[0])
      case Err(_) =>
      case Ok(w) => ResolveConcat(mem, w, xs[1..], ys);
    }
  }

  /** One more offset: the prefix of length i + 1 resolves by one read from
      where the prefix of length i got to; if that read fails, so does the
      whole chain. */
  lemma ResolveStep(mem: Mem, base: nat, offsets: seq<nat>, i: nat, b: nat)
    requires i < |offsets| && Resolve(mem, base, offsets[..i]) == Ok(b)
    ensures Resolve(mem, base, offsets[..i + 1]) == ReadWord(mem, b + offsets[i])
    ensures ReadWord(mem, b + offsets[i]).Err? ==> Resolve(mem, base, offsets) == Resolve(mem, base, offsets[..i + 1])
  {
    ResolveConcat(mem, base, offsets[..i], [offsets[i]]);
    assert offsets[..i + 1] == offsets[..i] + [offsets[i]];
    assert Resolve(mem, b, [offsets[i]]) == ReadWord(mem, b + offsets[i]) by {
      assert [offsets[i]][1..] == [];
    }
    ResolveConcat(mem, base, offsets[..i + 1], offsets[i + 1..]);
    assert offsets[..i + 1] + offsets[i + 1..] == offsets;
  }

  /** `resolve_multilevel(base, offsets)`. `steps` counts the reads made:
      all of them on success; on failure the read of the last one failed,
      every earlier one succeeded, and no later offset was read. */
  method ResolveMultilevel(mem: Mem, base: nat, offsets: seq<nat>) returns (r: Result<nat, MfError>, ghost steps: nat)
    ensures r == Resolve(mem, base, offsets)
    ensures steps <= |offsets|
    ensures r.Ok? ==> steps == |offsets|
    ensures r.Err? ==> 0 < steps && Resolve(mem, base, offsets[..steps - 1]).Ok? && Resolve(mem, base, offsets[..steps]).Err?
    ensures r.Err? ==> r.error == ReadFailed
  {
    var b := base;
    steps := 0;
    for i := 0 to |offsets|
      invariant Resolve(mem, base, offsets[..i]) == Ok(b)
      invariant steps == i
    {
      ResolveStep(mem, base, offsets, i, b);
      var w := ReadWord(mem, b + offsets[i]);
      steps := steps + 1;
      if w.Err? {
        return Err(w.error), steps;
      }
      b := w.value;
    }
    assert offsets[..|offsets|] == offsets;
    return Ok(b), steps;
  }

  /** An empty chain resolves to the base itself. */
  lemma ResolveEmpty(mem: Mem, base: nat)
    ensures Resolve(mem, base, []) == Ok(base)
  {
  }

  // ----- read_str -----

  /** The chunk size `BUF_SIZE` of `read_str`. */
  const CHUNK: nat := 4

  /** `buf.iter().position(|b| *b == 0)`: the index of the first zero byte. */
  function FirstZero(buf: seq<byte>): (r: Option<nat>)
    ensures r.Some? ==> r.value < |buf| && buf[r.value] == 0 && forall j :: 0 <= j < r.value ==> buf[j] != 0
    ensures r.None? ==> forall j :: 0 <= j < |buf| ==> buf[j] != 0
  {
    if buf == [] then None
    else if buf[0] == 0 then Some(0)
    else match FirstZero(buf[1..])
      case None => None
      case Some(i) => Some(i + 1)
  }

  /** The n bytes from `a` on are mapped and none of them is zero. */
  ghost predicate NonZeroRun(mem: Mem, a: nat, n: nat) {
    Mapped(mem, a, n) && forall k :: a <= k < a + n ==> mem[k] != 0
  }

  /** The string at `a` has length n: n non-zero bytes, then a zero. */
  ghost predicate Terminated(mem: Mem, a: nat, n: nat) {
    NonZeroRun(mem, a, n) && a + n in mem && mem[a + n] == 0
  }

  /** The 4-byte chunk that holds the terminator of a string of length n. */
  function LastChunk(n: nat): nat {
    n - n % CHUNK
  }

  /** The bytes of the string of length n at `a`. */
  ghost function StringBytes(mem: Mem, a: nat, n: nat): (s: seq<byte>)
    requires NonZeroRun(mem, a, n)
    ensures |s| == n && forall i :: 0 <= i < n ==> s[i] == mem[a + i]
  {
    if n == 0 then [] else StringBytes(mem, a, n - 1) + [mem[a + n - 1]]
  }

  /** The first z bytes of a readable chunk at offset `off`, none of them
      zero, extend the string read so far. */
  lemma ChunkPrefix(mem: Mem, address: nat, off: nat, buf: seq<byte>, z: nat)
    requires NonZeroRun(mem, address, off)
    requires Read(mem, address + off, CHUNK) == Ok(buf)
    requires z <= CHUNK && forall j :: 0 <= j < z ==> buf[j] != 0
    ensures NonZeroRun(mem, address, off + z)
    ensures StringBytes(mem, address, off + z) == StringBytes(mem, address, off) + buf[..z]
  {
    assert forall k :: address + off <= k < address + off + z ==> mem[k] == buf[k - address - off];
    var lhs := StringBytes(mem, address, off + z);
    var rhs := StringBytes(mem, address, off) + buf[..z];
    assert forall i :: 0 <= i < off + z ==> lhs[i] == rhs[i];
  }

  /** The chunk loop of `read_str(address)`: read 4-byte chunks at
      `address`, `address + 4`, ... until a chunk holds a zero byte, and keep
      the bytes before the first zero. An unreadable chunk fails the whole
      call, even if the terminator lies in a readable part of it. */
  method ReadUntilZero(mem: Mem, address: nat) returns (r: Result<seq<byte>, MfError>)
    ensures r.Ok? ==> && Terminated(mem, address, |r.value|)
                      && Mapped(mem, address + LastChunk(|r.value|), CHUNK)
                      && r.value == StringBytes(mem, address, |r.value|)
    ensures r.Err? ==> && r.error == ReadFailed
                       && exists off: nat :: off % CHUNK == 0 && NonZeroRun(mem, address, off) && !Mapped(mem, address + off, CHUNK)
  {
    var out: seq<byte> := [];
    var offset: nat := 0;
    while true
      invariant offset % CHUNK == 0
      invariant NonZeroRun(mem, address, offset)
      invariant out == StringBytes(mem, address, offset)
      decreases |mem.Keys| - offset
    {
      var rd := Read(mem, address + offset, CHUNK);
      if rd.Err? {
        assert !Mapped(mem, address + offset, CHUNK);
        return Err(ReadFailed);
      }
      var buf := rd.value;
      var z := FirstZero(buf);
      if z.Some? {
        ChunkPrefix(mem, address, offset, buf, z.value);
        ChunkEnd(mem, address, offset, buf, z.value);
        return Ok(out + buf[..z.value]);
      }
      ChunkPrefix(mem, address, offset, buf, CHUNK);
      assert buf[..CHUNK] == buf;
      out := out + buf;
      offset := offset + CHUNK;
      MappedBound(mem, address, offset);
    }
  }

  /** A zero at index z of the chunk at offset `off` terminates the string
      inside that chunk. */
  lemma ChunkEnd(mem: Mem, address: nat, off: nat, buf: seq<byte>, z: nat)
    requires NonZeroRun(mem, address, off + z)
    requires Read(mem, address + off, CHUNK) == Ok(buf)
    requires off % CHUNK == 0 && z < CHUNK && buf[z] == 0
    ensures Terminated(mem, address, off + z) && LastChunk(off + z) == off
  {
    assert mem[address + off + z] == buf[z];
    assert (off + z) % CHUNK == z;
  }

  /** `read_str(address)`: the bytes up to the first zero, validated by the
      UTF-8 check `isUtf8`. */
  method ReadStr(mem: Mem, address: nat, isUtf8: seq<byte> -> bool) returns (r: Result<seq<byte>, MfError>)
    ensures r.Ok? ==> && Terminated(mem, address, |r.value|)
                      && Mapped(mem, address + LastChunk(|r.value|), CHUNK)
                      && r.value == StringBytes(mem, address, |r.value|)
                      && isUtf8(r.value)
    ensures r.Err? ==> r.error == ReadFailed || r.error == InvalidString
    ensures r.Err? && r.error == InvalidString ==>
      exists n :: && Terminated(mem, address, n)
                  && Mapped(mem, address + LastChunk(n), CHUNK)
                  && !isUtf8(StringBytes(mem, address, n))
    ensures r.Err? && r.error == ReadFailed ==>
      exists off: nat :: off % CHUNK == 0 && NonZeroRun(mem, address, off) && !Mapped(mem, address + off, CHUNK)
  {
    var raw := ReadUntilZero(mem, address);
    if raw.Err? {
      return raw;
    }
    var out := raw.value;
    if isUtf8(out) {
      return Ok(out);
    }
    assert Terminated(mem, address, |out|);
    return Err(InvalidString);
  }

  // ----- module-scoped entry points -----

  /** One module of the target process, as the module snapshot lists it. */
  datatype ModuleEntry = ModuleEntry(name: string, base: nat, size: nat)

  /** The module snapshot `modules()`, or the error that taking it gave. */
  type Snapshot = Result<seq<ModuleEntry>, MfError>

  /** `u8::to_ascii_lowercase`, on characters. */
  function AsciiLower(c: char): char {
    if 'A' <= c <= 'Z' then (c as int + 32) as char else c
  }

  /** `str::to_ascii_lowercase`. */
  function ToAsciiLower(s: string): (r: string)
    ensures |r| == |s| && forall i :: 0 <= i < |s| ==> r[i] == AsciiLower(s[i])
  {
    seq(|s|, i requires 0 <= i < |s| => AsciiLower(s[i]))
  }

  /** `str::eq_ignore_ascii_case`, compared character by character: the
      same as comparing the two ASCII-lowercased strings. */
  predicate EqIgnoreAsciiCase(a: string, b: string): (r: bool)
    ensures r <==> ToAsciiLower(a) == ToAsciiLower(b)
    ensures a == b ==> r
  {
    |a| == |b| && forall i :: 0 <= i < |a| ==> AsciiLower(a[i]) == AsciiLower(b[i])
  }

  /** The first module of `modules` whose name equals `name` up to ASCII
      case. */
  function Lookup(modules: seq<ModuleEntry>, name: string): (r: Option<nat>)
    ensures r.Some? ==> r.value < |modules| && EqIgnoreAsciiCase(modules[r.value].name, name)
    ensures r.Some? ==> forall j :: 0 <= j < r.value ==> !EqIgnoreAsciiCase(modules[j].name, name)
    ensures r.None? ==> forall j :: 0 <= j < |modules| ==> !EqIgnoreAsciiCase(modules[j].name, name)
  {
    if modules == [] then None
    else if EqIgnoreAsciiCase(modules[0].name, name) then Some(0)
    else match Lookup(modules[1..], name)
      case None => None
      case Some(i) => Some(i + 1)
  }

  /** `find_module(name)` over the module snapshot `modules()`, whose own
      failure is passed on; no match is `ModuleNotFound`. */
  function FindModule(snapshot: Snapshot, name: string): (r: Result<ModuleEntry, MfError>)
    ensures snapshot.Err? ==> r == Err(snapshot.error)
    ensures r.Ok? ==> snapshot.Ok? && r.value in snapshot.value && EqIgnoreAsciiCase(r.value.name, name)
    ensures r.Ok? ==> exists i :: && 0 <= i < |snapshot.value| && r.value == snapshot.value[i]
                                  && forall j :: 0 <= j < i ==> !EqIgnoreAsciiCase(snapshot.value[j].name, name)
    ensures snapshot.Ok? && r.Err? ==>
      r.error == ModuleNotFound && forall m :: m in snapshot.value ==> !EqIgnoreAsciiCase(m.name, name)
  {
    match snapshot
    case Err(e) => Err(e)
    case Ok(modules) =>
      match Lookup(modules, name)
      case None => Err(ModuleNotFound)
      case Some(i) => Ok(modules[i])
  }

  /** `find_pattern_in_module(pat, name)`: a scanner over the module's
      range, or the lookup's error. */
  method FindPatternInModule(mem: Mem, pat: DynPattern, snapshot: Snapshot, name: string)
    returns (r: Result<Scanner, MfError>)
    ensures FindModule(snapshot, name).Err? ==> r == Err(FindModule(snapshot, name).error)
    ensures FindModule(snapshot, name).Ok? ==>
      && r.Ok? && fresh(r.value) && r.value.Valid() && !r.value.done && r.value.offset == 0
      && r.value.search == Search(mem, pat, FindModule(snapshot, name).value.base, FindModule(snapshot, name).value.size)
  {
    var m := FindModule(snapshot, name);
    if m.Err? {
      return Err(m.error);
    }
    var sc := new Scanner(mem, pat, m.value.base, m.value.size);
    return Ok(sc);
  }

  /** `create_pattern_in_module(target, name, max)`: `create_pattern` over
      the module's range, or the lookup's error. */
  method CreatePatternInModule(mem: Mem, target: nat, snapshot: Snapshot, name: string, max: Option<nat>)
    returns (r: Result<Option<DynPattern>, MfError>)
    ensures FindModule(snapshot, name).Err? ==> r == Err(FindModule(snapshot, name).error)
    ensures FindModule(snapshot, name).Ok? ==>
      r == CreateFrom(mem, target, FindModule(snapshot, name).value.base, FindModule(snapshot, name).value.size, max, 3, 0)
  {
    var m := FindModule(snapshot, name);
    if m.Err? {
      return Err(m.error);
    }
    r := CreatePattern(mem, target, m.value.base, m.value.size, max);
  }
}
