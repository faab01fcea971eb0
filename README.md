# memflex byte-signature engine, in Dafny

This project models the byte-signature engine of memflex, a Rust library for reading and patching another process's memory on Windows. The target process's memory is a finite partial map from address to byte (`Memory.Mem`). A read of n bytes at a succeeds exactly when a, ..., a + n - 1 are all mapped, and a failed read is the `ReadFailed` error. On top of that read, the model covers:

- **`DynPattern`** (`Dynamic`): a sequence of `ByteMatch` (`Exact(b)` or `Wildcard`). It has a `zip`-based `matches`, construction from a byte slice and from a fixed-size `Pattern<N>`, and `size`.
- **`find_pattern`** (`Scan`): the lazy, fused iterator, as a `Scanner` class. Its fields are the cursor `offset` and the `done` flag that `.fuse()` adds. Its `Next` method returns the next match address. The probing loop of the iterator's closure is `ScanStep`. Both are proved against the specification function `Search.Step`.
- **`create_pattern`** (`Synth`): the signature synthesiser. Its loop state is `(size, offset)`. It starts from the 3 bytes at `target`, adds one byte after every scan that meets an address other than `target`, and resumes that scan at the collision. It stops with `Ok(None)` once the size passes `max`. The method `CreatePattern` is proved equal to the specification function `CreateFrom`, and the outcomes are lemmas about `CreateFrom`.
- **`resolve_multilevel`**, **`read_str`**, **`find_module`**, and the two `*_in_module` delegations (`Process`).

Some quirks of the code are modelled as written:

- The range of `find_pattern` is checked only after a window that did not match. So offset 0 is probed even for an empty range, and a run of consecutive matches goes past `start + len`.
- `DynPattern::matches` compares only as far as the shorter of pattern and data goes.
- `len - offset` in `create_pattern` can underflow. Here it is the explicit error `LengthUnderflow`, and `CreateUnderflow` shows it happens only when `target == start + len`.

Two facts of the 64-bit Windows target are fixed in the model:

- `resolve_multilevel` takes its offsets as `&[usize]`, so they are unsigned (`nat`), and each is added to the address reached so far.
- `read::<usize>` reads a machine word of 8 bytes, least significant byte first.

## Model

| member | source | states |
|---|---|---|
| Memory.Read | src/external/win/process.rs:95-109 | a read of n bytes at a succeeds iff every address a..a+n-1 is mapped, returns exactly those n bytes in order, and otherwise fails with `ReadFailed` |
| Memory.ReadWord | src/external/win/process.rs:112-125 | reading a `usize` succeeds iff its 8 bytes are mapped, yields a value below 2^64 whose 8-byte little-endian encoding is exactly the bytes read, and otherwise fails with `ReadFailed` |
| Memory.LittleEndianRoundTrip | src/external/win/process.rs:112-125 | decoding the little-endian encoding of any value below 256^n gives back that value |
| Memory.LittleEndianInverse | src/external/win/process.rs:112-125 | encoding the decoded value of n bytes in n bytes gives back those bytes |
| Memory.MappedBound | src/external/win/process.rs:95-109 | a successful read of n bytes needs n mapped addresses, so n is bounded by the size of memory |
| Dynamic.ZipAllIff | src/pattern/dynamic.rs:10-15 | the `zip`/`all` fold holds iff every element matches its data byte on the common prefix of pattern and data |
| Dynamic.MatchesIff | src/pattern/dynamic.rs:10-15 | `matches(data)` holds iff element i matches `data[i]` for every i below min(size, \|data\|); data shorter than the pattern is compared only on its own length |
| Dynamic.EmptyMatchesAll | src/pattern/dynamic.rs:10-15 | the empty pattern matches every input |
| Dynamic.WildcardsMatchAll | src/pattern/dynamic.rs:10-15 | a pattern of only wildcards matches every input |
| Dynamic.MatchesIgnoresTail | src/pattern/dynamic.rs:35-42 | data bytes past `size()` do not affect `matches` |
| Dynamic.FromSlice | src/pattern/dynamic.rs:24-31 | the pattern built from a slice has the slice's length and element i is `Exact(s[i])` |
| Dynamic.ExactMatchesIff | src/pattern/dynamic.rs:10-15 | an all-exact pattern spelling s matches d iff s and d agree on their common prefix |
| Dynamic.FromSliceMatchesIff | src/pattern/dynamic.rs:10-31 | the pattern from slice s matches d iff s and d agree on their common prefix |
| Dynamic.FromSliceMatchesPrefix | src/pattern/dynamic.rs:10-31 | the pattern from s matches s itself and every data that has s as a prefix |
| Dynamic.FromPattern | src/pattern/dynamic.rs:18-22 | conversion from `Pattern<N>` keeps the elements in order, so the size is N |
| Dynamic.FromPatternMatches | src/pattern/dynamic.rs:18-22 | the converted pattern matches exactly when the fixed-size pattern's elements match on the common prefix |
| Scan.StepYield | src/external/win/process.rs:297-316 | a closure call from cursor o yields offset k iff k >= o, the window at k was read and matched, and every offset in [o, k) was read, missed and lay inside the range |
| Scan.StepStop | src/external/win/process.rs:298-312 | a closure call from cursor o ends at offset k iff every offset in [o, k) passed and the probe at k failed to read, or missed with k + 1 >= len |
| Scan.Search.Step | src/external/win/process.rs:298-315 | a closure call from cursor o reports an offset at or after o: the cursor never moves backwards |
| Scan.HitsBelowSpec | src/external/win/process.rs:297-316 | the hits among the first n offsets are strictly increasing addresses in [start, start + n), and start + k is among them iff offset k is a hit |
| Scan.HitsSkipPasses | src/external/win/process.rs:298-312 | passing over misses adds no hit |
| Scan.Scanner.constructor | src/external/win/process.rs:287-296 | a new scanner starts at offset 0, not done, with nothing yielded and nothing read |
| Scan.Scanner.Next | src/external/win/process.rs:297-317 | a call on a live scanner yields `start + k` and moves the cursor to k + 1 exactly when the closure call yields k; otherwise it returns `None` and ends the scan; once ended it returns `None` and changes nothing (`.fuse()`) |
| Scan.ScanStep | src/external/win/process.rs:298-312 | the probing loop returns exactly the outcome `Step` specifies: stop at a failed read, yield at a match, stop at a miss that reaches the end of the range |
| Scan.ScannerYieldsHits | src/external/win/process.rs:297-316 | the yielded addresses are strictly increasing and each is the start of a successfully read window that the pattern matched |
| Scan.ScannerSkipsNothing | src/external/win/process.rs:298-312 | every offset the scan passed is yielded iff it is a hit, and every one it did not yield was read, missed and lay inside the range |
| Scan.ProbeBeforeRangeCheck | src/external/win/process.rs:297-316 | a match at an offset at or past `len`, including offset 0 of an empty range, is still yielded, because the range is checked only after a miss |
| Synth.FirstOther | src/external/win/process.rs:348-360 | the first yielded address other than `target` is at or after the scan's start and differs from `target` |
| Synth.FirstOtherSome | src/external/win/process.rs:348-360 | the `for` loop breaks at `start + k` iff offset k is a hit away from `target` and every earlier offset was a miss inside the range or the hit at `target` |
| Synth.FirstOtherNone | src/external/win/process.rs:348-360 | the `for` loop runs out without a break iff the scan ends having met only misses inside the range and `target` itself |
| Synth.TargetSkip | src/external/win/process.rs:348-349 | passing over the hit at `target` changes neither where the scan ends nor what it covers on the way |
| Synth.FirstCollision | src/external/win/process.rs:347-360 | running a fresh scanner and stopping at the first address other than `target` computes `FirstOther` |
| Synth.CreatePattern | src/external/win/process.rs:332-366 | the synthesiser's loop over `(size, offset)`, starting at `(3, 0)`, returns exactly the outcome `CreateFrom` specifies |
| Synth.CreateFrom | src/external/win/process.rs:343-365 | one iteration of the loop from state `(size, offset)` and the rest of the run; its only errors are a failed read and the `len - offset` underflow |
| Synth.CreateCollides | src/external/win/process.rs:348-358 | a scan that breaks at `oc` either stops at the budget with `Ok(None)` or continues with one more byte from offset `oc - start` |
| Synth.CreateSettles | src/external/win/process.rs:347-364 | a scan that runs out without a break returns the candidate bytes as an all-`Exact` pattern |
| Synth.CreateShape | src/external/win/process.rs:340-364 | a returned signature is all-`Exact`, no shorter than the starting size, exactly the bytes at `target`, and within `max` whenever it grew |
| Synth.CreateUnique | src/external/win/process.rs:330-364 | a returned signature is unique: a fresh scan of it from the offset the loop started at meets no address other than `target` (from offset 0: the whole range) |
| Synth.ShiftUnique | src/external/win/process.rs:348 | a scan of the range meets no other address from cursor k iff a fresh scan that starts k bytes later, over k bytes fewer, meets none |
| Synth.PrefixUnique | src/external/win/process.rs:348-358 | each offset the shorter candidate passed over or hit only at `target` is, for the longer signature, passed over, the hit at `target`, or an unreadable window that ends the scan, so uniqueness after them extends back over them |
| Synth.UniqueBack | src/external/win/process.rs:348-358 | a signature unique from the collision `oc` on, and extending the candidate that collided there, is unique from the earlier offset on |
| Synth.BudgetSize | src/external/win/process.rs:354-355 | the size at which the budget stops the growth: the larger of the start size and `max` |
| Synth.CreateBudget | src/external/win/process.rs:345-356 | `Ok(None)` happens only when `max` is set, every read at `target` up to the budget size succeeded, and the candidate of that size still met another address in the scan of the range from some resume offset o <= len |
| Synth.BudgetCut | src/external/win/process.rs:354-356 | a budget only cuts the unbounded search short: it returns the unbounded result when that fits in `max` bytes or did not grow, and `Ok(None)` otherwise |
| Synth.CreateFailure | src/external/win/process.rs:345-348 | an error is either the `len - offset` underflow or a failed read at `target`, of a size within the budget |
| Synth.CreateUnderflow | src/external/win/process.rs:348-351 | the `len - offset` underflow happens only when `target == start + len` |
| Synth.UnderflowReachable | src/external/win/process.rs:348-351 | with `len == 0`, `target == start` and a repeated byte, the second iteration underflows |
| Synth.UniqueAtThree | src/external/win/process.rs:340-364 | a 3-byte candidate that the first scan finds unique is returned whatever `max` is, even below 3 |
| Process.Resolve | src/external/win/process.rs:386-390 | the fold over the offsets fails only with `ReadFailed`, and a non-empty chain ends at a value read as a word, below 2^64 |
| Process.ResolveConcat | src/external/win/process.rs:381-391 | resolving xs + ys resolves xs and continues from its result with ys; an error in xs is the result |
| Process.ResolveStep | src/external/win/process.rs:386-388 | one more offset is one more word read from where the chain got to, and a failed read there is the whole result |
| Process.ResolveMultilevel | src/external/win/process.rs:381-391 | the loop computes the fold `base := read_word(base + o)`; on success it read every offset; on failure the last read failed, all earlier ones succeeded, and no later offset was read |
| Process.ResolveEmpty | src/external/win/process.rs:381-391 | an empty chain resolves to the base |
| Process.FirstZero | src/external/win/process.rs:137 | the position of the first zero byte, or none when the chunk has no zero |
| Process.StringBytes | src/external/win/process.rs:131-145 | the string of length n at a is the n bytes at a, in order |
| Process.ChunkPrefix | src/external/win/process.rs:137-142 | a readable chunk's non-zero prefix extends the string read so far |
| Process.ChunkEnd | src/external/win/process.rs:137-139 | a zero in a chunk terminates the string inside that chunk |
| Process.ReadUntilZero | src/external/win/process.rs:129-145 | the chunk loop returns exactly the non-zero bytes before the first zero, with the chunk holding the zero readable; it fails only on an unreadable chunk at a multiple of 4 that is preceded by non-zero bytes only |
| Process.ReadStr | src/external/win/process.rs:128-148 | `read_str` returns the bytes before the first zero when they pass the UTF-8 check; otherwise it fails with `InvalidString` because of a terminated but invalid string, or with `ReadFailed` because of an unreadable chunk |
| Process.EqIgnoreAsciiCase | src/external/win/process.rs:281 | two names are equal up to ASCII case iff their ASCII-lowercased forms are equal; every name equals itself |
| Process.Lookup | src/external/win/process.rs:280-281 | `find` returns the first module whose name equals the wanted one up to ASCII case, and none when no module matches |
| Process.FindModule | src/external/win/process.rs:279-283 | `find_module` passes on a snapshot failure, returns the first listed module whose name matches, or fails with `ModuleNotFound` when none matches |
| Process.FindPatternInModule | src/external/win/process.rs:321-328 | a failed module lookup is the result; otherwise a fresh scanner over the module's base and size |
| Process.CreatePatternInModule | src/external/win/process.rs:370-378 | a failed module lookup is the result; otherwise `create_pattern` over the module's base and size |

## Left out

- The `extern "C"` declarations and the OS wrappers are not modelled, apart from reads of memory: writing, protection, allocation, threads, suspension, termination and closing. The model's memory is a fixed map; no write changes it.
- `ReadProcessMemory` partial reads are not modelled: a read either returns all n bytes or fails with `ReadFailed`, which stands for the OS error that `GetLastError` would report.
- `ProcessIterator`, `ProcessEntry`, `open_process_by_*`, `modules` and `threads` are toolhelp snapshots over FFI structures and are not modelled. `FindModule` takes the module snapshot as an input, including the snapshot's own failure.
- The error enum's `Display` and its `GetLastError` call (src/error.rs) carry no logic of their own.
- The UTF-8 validation of `String::from_utf8` is the predicate parameter `isUtf8` of `ReadStr`, and its failure is the error `InvalidString`. The bytes are returned rather than a `String`.
- Machine-integer overflow of `start + offset`, `base + o` and `address + offset` is not modelled: addresses are unbounded naturals. Of the integer hazards, only the `len - offset` underflow is kept, as the error `LengthUnderflow`; it stands for the panic (debug builds) or wrap-around (release builds) of the code.
- The `Matcher` implementation for `&[u8]` and the file defining `ByteMatch` and `Pattern<N>` are not part of this model. `create_pattern` hands its byte buffer to `find_pattern`, and that is modelled as the all-`Exact` `DynPattern` built from the same bytes. The window read is exactly pattern-sized, so the `zip` truncation cannot make the two differ.
- Scan.Scanner.Next: once a scan has ended, the ghost cursor stays at the offset whose probe ended it, and the concrete `offset` is not advanced. The code increments `offset` before its range check returns `None`, but `.fuse()` means it is never read again.
- The reused buffer of `find_pattern` is not modelled as a separate array; each probe's window is the value of the read.
