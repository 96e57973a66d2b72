/**
 Reading and writing tracee memory: the bulk path, and the word-wise ptrace path behind it.
 */
module MemoryControl {
  import opened Tracees

  /** What the word-wise write hands to PTRACE_POKEDATA: the assembled word, as the loop means to,
      or the address of the local variable that holds it, as the source has it. */
  datatype PokeArgument = WordValue | WordAddress(pointer: seq<byte>)

  predicate ValidArgument(argument: PokeArgument) {
    argument.WordAddress? ==> |argument.pointer| == 8
  }

  /** How many words a range of `n` bytes takes. */
  function WordsOf(n: nat): (k: nat)
    ensures 8 * k < n + 8 && n <= 8 * k
  {
    (n + 7) / 8
  }

  /** The eight bytes that one poke is given, for a word assembled from data and a tail. */
  function Poked(argument: PokeArgument, word: seq<byte>): seq<byte> {
    match argument
    case WordValue => word
    case WordAddress(pointer) => pointer
  }

  /** The bytes that one poke changes. */
  function Chunk(argument: PokeArgument, data: seq<byte>): seq<byte> {
    match argument
    case WordValue => data
    case WordAddress(pointer) => pointer
  }

  function Repeated(pointer: seq<byte>, k: nat): (r: seq<byte>)
    requires |pointer| == 8
    ensures |r| == 8 * k
  {
    if k == 0 then [] else Repeated(pointer, k - 1) + pointer
  }

  /** The bytes that a word-wise write of `data` with `k` pokes stores, tail padding apart. */
  function Payload(data: seq<byte>, k: nat, argument: PokeArgument): (r: seq<byte>)
    requires ValidArgument(argument) && |data| <= 8 * k
    ensures |r| <= 8 * k
  {
    match argument
    case WordValue => data
    case WordAddress(pointer) => Repeated(pointer, k)
  }

  /** Memory after `k` pokes have written `data`. */
  function Stored(m: seq<byte>, at: nat, data: seq<byte>, k: nat, argument: PokeArgument): (r: seq<byte>)
    requires ValidArgument(argument) && |data| <= 8 * k
    requires Mapped(m, at, 8 * k)
    ensures |r| == |m|
  {
    Splice(m, at, Payload(data, k, argument))
  }

  /** Memory in which exactly the first `k` words of `data` have been stored. */
  ghost predicate WholeWords(m: seq<byte>, at: nat, data: seq<byte>, argument: PokeArgument, m': seq<byte>, k: nat)
    requires ValidArgument(argument)
  {
    8 * k < |data| && Mapped(m, at, 8 * k) && m' == Stored(m, at, data[..8 * k], k, argument)
  }

  /** What a failed word-wise write leaves. */
  ghost predicate StoredWords(m: seq<byte>, at: nat, data: seq<byte>, argument: PokeArgument, m': seq<byte>)
    requires ValidArgument(argument)
  {
    exists k: nat :: WholeWords(m, at, data, argument, m', k)
  }

  /** Storing bytes together with what follows them in memory is storing the bytes. */
  lemma TailIsKept(m: seq<byte>, at: nat, data: seq<byte>, end: nat)
    requires data != [] && at + |data| <= end <= |m|
    ensures Splice(m, at, data + m[at + |data|..end]) == Splice(m, at, data)
  {
  }

  /** Storing one run of bytes after another is storing both. */
  lemma SpliceAppend(m: seq<byte>, at: nat, a: seq<byte>, b: seq<byte>)
    requires Mapped(m, at, |a| + |b|)
    ensures Splice(Splice(m, at, a), at + |a|, b) == Splice(m, at, a + b)
  {
  }

  lemma Appended(m: seq<byte>, at: nat, a: seq<byte>, b: seq<byte>, before: seq<byte>, after: seq<byte>)
    requires Mapped(m, at, |a| + |b|)
    requires before == Splice(m, at, a) && after == Splice(before, at + |a|, b)
    ensures after == Splice(m, at, a + b)
  {
    SpliceAppend(m, at, a, b);
  }

  /** One more poke extends what the pokes before it have stored. */
  lemma PayloadExtends(data: seq<byte>, k: nat, n: nat, argument: PokeArgument)
    requires ValidArgument(argument) && 0 < n <= 8 && 8 * k + n <= |data|
    ensures Payload(data[..8 * k], k, argument) + Chunk(argument, data[8 * k..8 * k + n])
            == Payload(data[..8 * k + n], k + 1, argument)
    ensures |Payload(data[..8 * k], k, argument)| == 8 * k
  {
    if argument.WordValue? {
      assert data[..8 * k] + data[8 * k..8 * k + n] == data[..8 * k + n];
    }
  }

  /** The state of the write loop over memory `m` after `k` pokes. */
  ghost predicate StoredSoFar(m: seq<byte>, at: nat, data: seq<byte>, argument: PokeArgument, k: nat, w: nat,
                              m': seq<byte>)
    requires ValidArgument(argument)
  {
    && w == Min(8 * k, |data|) && 8 * k < |data| + 8 && Mapped(m, at, 8 * k)
    && m' == Stored(m, at, data[..w], k, argument)
  }

  /** One more poke after `k` whole words. */
  lemma OneMorePoke(m: seq<byte>, at: nat, data: seq<byte>, argument: PokeArgument, k: nat, n: nat,
                    before: seq<byte>, after: seq<byte>)
    requires ValidArgument(argument) && 0 < n <= 8 && 8 * k + n <= |data| && Mapped(m, at, 8 * (k + 1))
    requires before == Stored(m, at, data[..8 * k], k, argument)
    requires after == Splice(before, at + 8 * k, Chunk(argument, data[8 * k..8 * k + n]))
    ensures after == Stored(m, at, data[..8 * k + n], k + 1, argument)
  {
    PayloadExtends(data, k, n, argument);
    Appended(m, at, Payload(data[..8 * k], k, argument), Chunk(argument, data[8 * k..8 * k + n]), before, after);
  }

  lemma WordsSoFar(size: nat, k: nat, w: nat, n: nat)
    requires w == Min(8 * k, size) && w < size && n == Min(8, size - w)
    ensures w == 8 * k && 0 < n <= 8 && w + n == Min(8 * (k + 1), size) && 8 * (k + 1) < size + 8
  {
  }

  lemma OneMoreChunk(m: seq<byte>, at: nat, data: seq<byte>, argument: PokeArgument, k: nat, w: nat, n: nat,
                     before: seq<byte>, after: seq<byte>)
    requires ValidArgument(argument) && StoredSoFar(m, at, data, argument, k, w, before)
    requires w < |data| && n == Min(8, |data| - w) && at + w + 8 <= |before|
    requires after == Splice(before, at + w, Chunk(argument, data[w..w + n]))
    ensures StoredSoFar(m, at, data, argument, k + 1, w + n, after)
  {
    WordsSoFar(|data|, k, w, n);
    OneMorePoke(m, at, data, argument, k, n, before, after);
  }

  lemma LoopIsDone(m: seq<byte>, at: nat, data: seq<byte>, argument: PokeArgument, k: nat, w: nat, m': seq<byte>)
    requires ValidArgument(argument) && StoredSoFar(m, at, data, argument, k, w, m')
    ensures w < |data| ==> StoredWords(m, at, data, argument, m')
    ensures w >= |data| ==> Mapped(m, at, 8 * WordsOf(|data|))
                            && m' == Stored(m, at, data, WordsOf(|data|), argument)
  {
    if w < |data| {
      assert WholeWords(m, at, data, argument, m', k);
    } else {
      assert data[..w] == data;
      assert k == WordsOf(|data|);
    }
  }

  lemma SliceExtends(m: seq<byte>, at: nat, n: nat, k: nat)
    requires 0 < k <= 8 && at + n + 8 <= |m|
    ensures Slice(m, at, n + k) == Slice(m, at, n) + m[at + n..at + n + 8][..k]
  {
    assert m[at + n..at + n + 8][..k] == m[at + n..at + n + k];
  }

  method ReadMemoryPtrace(t: Tracee, tid: int, address: nat, buffer: array<byte>) returns (ok: bool)
    modifies buffer, t`faults
    ensures ok ==> Mapped(t.memory, address, buffer.Length)
                   && buffer[..] == Slice(t.memory, address, buffer.Length)
                   && (buffer.Length > 0 ==> tid >= 1)
    ensures t.faults >= old(t.faults) && (ok <==> t.faults == old(t.faults))
  {
    var bytesRead := 0;
    while bytesRead < buffer.Length
      invariant 0 <= bytesRead <= buffer.Length
      invariant t.faults == old(t.faults)
      invariant bytesRead > 0 ==> tid >= 1
      invariant Mapped(t.memory, address, bytesRead)
      invariant buffer[..bytesRead] == Slice(t.memory, address, bytesRead)
    {
      var fetched, word := t.Peek(tid, address + bytesRead);
      if !fetched { return false; }
      var copySize := Min(8, buffer.Length - bytesRead);
      ghost var before := buffer[..bytesRead];
      forall i | 0 <= i < copySize {
        buffer[bytesRead + i] := word[i];
      }
      assert buffer[..bytesRead + copySize] == before + word[..copySize];
      SliceExtends(t.memory, address, bytesRead, copySize);
      bytesRead := bytesRead + copySize;
    }
    return true;
  }

  // One turn of the word-wise write: a short word is completed with what memory holds after it
  method PokeChunk(t: Tracee, tid: int, address: nat, data: seq<byte>, argument: PokeArgument) returns (ok: bool)
    requires ValidArgument(argument) && 0 < |data| <= 8
    modifies t`memory, t`faults
    ensures ok ==> tid >= 1 && address + 8 <= |old(t.memory)|
                   && t.memory == Splice(old(t.memory), address, Chunk(argument, data))
    ensures !ok ==> t.memory == old(t.memory)
    ensures t.faults >= old(t.faults) && (ok <==> t.faults == old(t.faults))
  {
    var word: seq<byte> := [0, 0, 0, 0, 0, 0, 0, 0];
    if |data| < 8 {
      var fetched;
      fetched, word := t.Peek(tid, address);
      if !fetched { return false; }
      assert word[|data|..] == t.memory[address + |data|..address + 8];
      TailIsKept(t.memory, address, data, address + 8);
    } else {
      assert data + word[|data|..] == data;
    }
    word := data + word[|data|..];
    ok := t.Poke(tid, address, Poked(argument, word));
  }

  method WriteMemoryPtrace(t: Tracee, tid: int, address: nat, data: seq<byte>, argument: PokeArgument)
    returns (ok: bool)
    requires ValidArgument(argument)
    modifies t`memory, t`faults
    // every byte of the range, and no other, holds the data
    ensures ok ==> Mapped(old(t.memory), address, 8 * WordsOf(|data|))
                   && t.memory == Stored(old(t.memory), address, data, WordsOf(|data|), argument)
                   && (data != [] ==> tid >= 1)
    // a failed write has stored exactly some whole words
    ensures !ok ==> StoredWords(old(t.memory), address, data, argument, t.memory)
    ensures t.faults >= old(t.faults) && (ok <==> t.faults == old(t.faults))
  {
    var written := 0;
    ghost var m, k := t.memory, 0;
    while written < |data|
      invariant StoredSoFar(m, address, data, argument, k, written, t.memory)
      invariant t.faults == old(t.faults)
      invariant written > 0 ==> tid >= 1
    {
      ghost var before := t.memory;
      var copySize := Min(8, |data| - written);
      ok := PokeChunk(t, tid, address + written, data[written..written + copySize], argument);
      if !ok {
        LoopIsDone(m, address, data, argument, k, written, t.memory);
        return false;
      }
      OneMoreChunk(m, address, data, argument, k, written, copySize, before, t.memory);
      written := written + copySize;
      k := k + 1;
    }
    LoopIsDone(m, address, data, argument, k, written, t.memory);
    return true;
  }

  method ReadMemory(t: Tracee, tid: int, address: nat, buffer: array<byte>) returns (ok: bool)
    modifies buffer, t`faults
    ensures ok ==> Mapped(t.memory, address, buffer.Length)
                   && buffer[..] == Slice(t.memory, address, buffer.Length)
                   && (buffer.Length > 0 ==> tid >= 1)
    ensures t.faults >= old(t.faults) && (!ok ==> t.faults > old(t.faults))
  {
    var n, moved := t.VmRead(tid, address, buffer.Length);
    if n > 0 {
      forall i | 0 <= i < n {
        buffer[i] := moved[i];
      }
    }
    if n == buffer.Length { return true; }
    ok := ReadMemoryPtrace(t, tid, address, buffer);
  }

  /** The bulk path stored the first `n` bytes, none if elements are moved whole, and the fallback went over them. */
  ghost predicate FallbackDone(m: seq<byte>, at: nat, data: seq<byte>, n: nat, argument: PokeArgument,
                               wholeElements: bool, m': seq<byte>)
    requires ValidArgument(argument)
  {
    && n <= |data| && (wholeElements ==> n == 0)
    && Mapped(m, at, n) && Mapped(m, at, 8 * WordsOf(|data|))
    && m' == Stored(Splice(m, at, data[..n]), at, data, WordsOf(|data|), argument)
  }

  ghost predicate FallbackFailed(m: seq<byte>, at: nat, data: seq<byte>, n: nat, argument: PokeArgument,
                                 wholeElements: bool, m': seq<byte>)
    requires ValidArgument(argument)
  {
    && n < |data| && (wholeElements ==> n == 0)
    && Mapped(m, at, n) && StoredWords(Splice(m, at, data[..n]), at, data, argument, m')
  }

  method WriteMemory(t: Tracee, tid: int, address: nat, data: seq<byte>, argument: PokeArgument)
    returns (ok: bool)
    requires ValidArgument(argument)
    modifies t`memory, t`faults
    ensures ok && argument.WordValue? ==>
              Mapped(old(t.memory), address, |data|) && t.memory == Splice(old(t.memory), address, data)
    ensures ok && data != [] ==> tid >= 1
    // whatever is poked: the fallback went over some prefix that the bulk path had stored
    ensures ok && t.faults > old(t.faults) ==>
              exists n: nat :: FallbackDone(old(t.memory), address, data, n, argument, t.wholeElements, t.memory)
    ensures !ok ==>
              exists n: nat :: FallbackFailed(old(t.memory), address, data, n, argument, t.wholeElements, t.memory)
    // the bulk path is right whatever the word-wise path pokes
    ensures t.faults == old(t.faults) ==>
              ok && Mapped(old(t.memory), address, |data|) && t.memory == Splice(old(t.memory), address, data)
    // a failed write leaves a prefix of the data, whole words of it if the kernel does not split elements
    ensures !ok && argument.WordValue? ==>
              exists n: nat :: n < |data| && Mapped(old(t.memory), address, n)
                               && (t.wholeElements ==> n % 8 == 0)
                               && t.memory == Splice(old(t.memory), address, data[..n])
    ensures t.faults >= old(t.faults) && (!ok ==> t.faults > old(t.faults))
  {
    var n := t.VmWrite(tid, address, data);
    if n == |data| {
      assert data[..n] == data;
      return true;
    }
    ghost var partial, done: nat := t.memory, if n > 0 then n else 0;
    assert partial == Splice(old(t.memory), address, data[..done]);
    ok := WriteMemoryPtrace(t, tid, address, data, argument);
    assert ok ==> FallbackDone(old(t.memory), address, data, done, argument, t.wholeElements, t.memory);
    assert !ok ==> FallbackFailed(old(t.memory), address, data, done, argument, t.wholeElements, t.memory);
    if argument.WordValue? {
      if ok {
        SlowPathRefinesFastPath(old(t.memory), address, data, done);
      } else {
        ghost var k: nat :| WholeWords(partial, address, data, argument, t.memory, k);
        PrefixOverPrefix(old(t.memory), address, data, done, 8 * k);
      }
    }
  }

  // ---------- what the two paths have to do with each other ----------

  /** Storing a prefix of the data over another prefix leaves the longer of the two. */
  lemma PrefixOverPrefix(m: seq<byte>, at: nat, data: seq<byte>, n: nat, k: nat)
    requires n <= |data| && k <= |data|
    requires Mapped(m, at, n) && Mapped(m, at, k)
    ensures var longer := if n < k then k else n;
            Splice(Splice(m, at, data[..n]), at, data[..k]) == Splice(m, at, data[..longer])
  {
    var longer := if n < k then k else n;
    var twice, once := Splice(Splice(m, at, data[..n]), at, data[..k]), Splice(m, at, data[..longer]);
    assert forall i :: 0 <= i < |m| ==> twice[i] == once[i];
  }

  /** Whatever prefix a short bulk write stored, the completed fallback leaves what a full bulk write
      would have, and reading the range back by either path returns the data. */
  lemma SlowPathRefinesFastPath(m: seq<byte>, at: nat, data: seq<byte>, n: nat)
    requires n <= |data|
    requires Mapped(m, at, 8 * WordsOf(|data|))
    ensures Mapped(m, at, |data|) && Mapped(m, at, n)
    ensures Stored(Splice(m, at, data[..n]), at, data, WordsOf(|data|), WordValue) == Splice(m, at, data)
    ensures Slice(Splice(m, at, data), at, |data|) == data
  {
    PrefixOverPrefix(m, at, data, n, |data|);
    assert data[..|data|] == data;
  }

  /** As the source has it, the word-wise path stores the pointer. It stores the data instead exactly
      when every word of the intended result happens to equal that pointer. */
  lemma PokedPointerIsRightIff(m: seq<byte>, at: nat, data: seq<byte>, pointer: seq<byte>)
    requires |pointer| == 8 && Mapped(m, at, 8 * WordsOf(|data|))
    ensures Stored(m, at, data, WordsOf(|data|), WordAddress(pointer)) == Splice(m, at, data)
            <==> Slice(Splice(m, at, data), at, 8 * WordsOf(|data|)) == Repeated(pointer, WordsOf(|data|))
  {
    SpliceIsIff(m, at, Repeated(pointer, WordsOf(|data|)), Splice(m, at, data));
  }

  /** The same of the whole write once it takes the fallback, whatever prefix the bulk path had stored. */
  lemma FallbackIsRightIff(m: seq<byte>, at: nat, data: seq<byte>, n: nat, pointer: seq<byte>, wholeElements: bool,
                           m': seq<byte>)
    requires |pointer| == 8 && FallbackDone(m, at, data, n, WordAddress(pointer), wholeElements, m')
    ensures m' == Splice(m, at, data)
            <==> Slice(Splice(m, at, data), at, 8 * WordsOf(|data|)) == Repeated(pointer, WordsOf(|data|))
  {
    PokedPointerIsRightIff(Splice(m, at, data[..n]), at, data, pointer);
    PrefixOverPrefix(m, at, data, n, |data|);
    assert data[..|data|] == data;
  }

  /** What a write of at most one word leaves: nothing but the stored prefix if it failed, otherwise what was poked. */
  lemma OneWordWritten(m: seq<byte>, at: nat, data: seq<byte>, n: nat, argument: PokeArgument, wholeElements: bool,
                       m': seq<byte>)
    requires ValidArgument(argument) && 0 < |data| <= 8
    ensures FallbackFailed(m, at, data, n, argument, wholeElements, m') ==> m' == Splice(m, at, data[..n])
    ensures FallbackDone(m, at, data, n, argument, wholeElements, m') ==>
              && Mapped(m, at, 8)
              && m' == match argument
                       case WordValue => Splice(m, at, data)
                       case WordAddress(pointer) => Splice(m, at, pointer)
  {
    if FallbackFailed(m, at, data, n, argument, wholeElements, m') {
      NothingPoked(Splice(m, at, data[..n]), at, data, argument, m');
    }
    if FallbackDone(m, at, data, n, argument, wholeElements, m') {
      assert WordsOf(|data|) == 1;
      match argument {
        case WordValue => SlowPathRefinesFastPath(m, at, data, n);
        case WordAddress(pointer) =>
          assert Repeated(pointer, 0) == [] && Repeated(pointer, 1) == pointer;
      }
    }
  }

  lemma NothingPoked(m: seq<byte>, at: nat, data: seq<byte>, argument: PokeArgument, m': seq<byte>)
    requires ValidArgument(argument) && |data| <= 8 && StoredWords(m, at, data, argument, m')
    ensures m' == m
  {
    var k: nat :| WholeWords(m, at, data, argument, m', k);
    assert k == 0 && Payload(data[..0], 0, argument) == [];
  }

  /** Storing a range gives a certain memory exactly when that memory agrees outside and the range is what it holds. */
  lemma SpliceIsIff(m: seq<byte>, at: nat, range: seq<byte>, meant: seq<byte>)
    requires Mapped(m, at, |range|) && |meant| == |m|
    requires forall i :: 0 <= i < |m| && !(at <= i < at + |range|) ==> meant[i] == m[i]
    ensures Splice(m, at, range) == meant <==> Slice(meant, at, |range|) == range
  {
    var coded, held := Splice(m, at, range), Slice(meant, at, |range|);
    if coded == meant {
      assert forall i :: 0 <= i < |range| ==> held[i] == coded[at + i] == range[i];
    }
    if held == range {
      assert forall i :: at <= i < at + |range| ==> coded[i] == held[i - at] == meant[i];
    }
  }

  /** One BRK patched through the word-wise path of the source: neither the instruction nor the bytes
      after it are what they should be. */
  lemma PokedPointerExample()
    ensures var m: seq<byte> := [1, 2, 3, 4, 5, 6, 7, 8];
            var pointer: seq<byte> := [0xF0, 0xEE, 0xFF, 0x7F, 0, 0, 0, 0];
            var coded := Stored(m, 0, [0, 0, 0x20, 0xD4], 1, WordAddress(pointer));
            var meant := Splice(m, 0, [0, 0, 0x20, 0xD4]);
            coded[0] == 0xF0 && meant[0] == 0 && coded[4] == 0 && meant[4] == 5
  {
    assert WordsOf(4) == 1;
  }
}
