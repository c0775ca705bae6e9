/**
  The Yaz0 and Yay0 decoders of src/Compression.cpp.

  Both decoders are loops over flat byte arrays driven by explicit cursors
  and a flag register.  Each is described twice: a specification that
  executes one loop iteration at a time (`Yaz0Step`/`Yay0Step`, iterated by
  `Yaz0Run`/`Yay0Loop`), and a method over arrays that follows the source's
  loop and is proved to compute the same result.  Every index the source
  leaves unchecked becomes an explicit failure: reading past the input
  (`Truncated`), copying from before the start of the output
  (`BadReference`), writing past the output buffer (`Overrun`) and handing
  out bytes that were never written (`Uninitialised`).
*/
module LzDecode {
  import opened Util
  import opened Bytes

  datatype Error = Truncated | BadReference | Overrun | Uninitialised

  datatype Result<T> = Ok(value: T) | Err(error: Error)

  /**
    A back-reference: append n bytes, each equal to the byte d positions
    before it.  Copying byte by byte lets the copy overlap its own output.
  */
  function CopyBack(out: seq<byte>, d: nat, n: nat): (r: seq<byte>)
    requires 1 <= d && (n == 0 || d <= |out|)
    ensures |r| == |out| + n && r[..|out|] == out
  {
    if n == 0 then out
    else
      var prev := CopyBack(out, d, n - 1);
      prev + [prev[|prev| - d]]
  }

  /** Every byte a back-reference appends equals the byte d positions before it. */
  lemma {:induction false} CopyBackRepeats(out: seq<byte>, d: nat, n: nat)
    requires 1 <= d && (n == 0 || d <= |out|)
    ensures forall k :: |out| <= k < |out| + n ==> CopyBack(out, d, n)[k] == CopyBack(out, d, n)[k - d]
  {
    if n > 0 {
      CopyBackRepeats(out, d, n - 1);
      var prev := CopyBack(out, d, n - 1);
      assert CopyBack(out, d, n) == prev + [prev[|prev| - d]];
    }
  }

  // =====================================================================
  // Yaz0
  // =====================================================================

  /** The decoder's registers: `src_pos`, `bits`, `count` and the bytes of `dst` written so far. */
  datatype Yaz0State = Yaz0State(srcPos: nat, bits: bv8, count: nat, out: seq<byte>)

  /** Whether this iteration must first load a new control byte. */
  predicate Yaz0Reloads(st: Yaz0State) {
    st.count == 0
  }

  /** The control register used by this iteration. */
  function Yaz0Control(src: seq<byte>, st: Yaz0State): bv8
    requires !Yaz0Reloads(st) || st.srcPos < |src|
  {
    if Yaz0Reloads(st) then src[st.srcPos] as bv8 else st.bits
  }

  /** Where the literal or the back-reference token of this iteration starts. */
  function Yaz0TokenPos(st: Yaz0State): nat {
    if Yaz0Reloads(st) then st.srcPos + 1 else st.srcPos
  }

  /** Copy distance of the two-byte token at p: its low 12 bits plus one. */
  function Yaz0Distance(src: seq<byte>, p: nat): (d: nat)
    requires p + 2 <= |src|
    ensures 1 <= d <= 0x1000
  {
    Lo(src[p]) * 256 + Val(src[p + 1]) + 1
  }

  /** Whether the token at p carries its length in a third byte (high nibble 0). */
  predicate Yaz0LongToken(src: seq<byte>, p: nat)
    requires p + 2 <= |src|
  {
    Hi(src[p]) == 0
  }

  /** Copy length of the token at p: nibble + 2, or the third byte + 0x12. */
  function Yaz0Length(src: seq<byte>, p: nat): (n: nat)
    requires p + 2 <= |src|
    requires Yaz0LongToken(src, p) ==> p + 3 <= |src|
    ensures 3 <= n <= 0x111
  {
    if Yaz0LongToken(src, p) then Val(src[p + 2]) + 0x12 else Hi(src[p]) + 2
  }

  /**
    One iteration of the `while (dst_pos < decompressedSize)` loop
    (src/Compression.cpp:25-64).
  */
  function Yaz0Step(src: seq<byte>, size: nat, st: Yaz0State): (r: Result<Yaz0State>)
    requires |st.out| < size
    ensures r.Ok? ==> |st.out| < |r.value.out| <= size && r.value.out[..|st.out|] == st.out
  {
    if Yaz0Reloads(st) && st.srcPos >= |src| then Err(Truncated)
    else
      var bits := Yaz0Control(src, st);
      var count := if Yaz0Reloads(st) then 8 else st.count;
      if bits & 0x80 != 0 then Yaz0Literal(src, st.out, Yaz0TokenPos(st), bits, count)
      else Yaz0Copy(src, size, st.out, Yaz0TokenPos(st), bits, count)
  }

  /** A set flag: copy the byte at p (src/Compression.cpp:32-35). */
  function Yaz0Literal(src: seq<byte>, out: seq<byte>, p: nat, bits: bv8, count: nat): (r: Result<Yaz0State>)
    requires count >= 1
    ensures r.Ok? ==> p < |src| && r.value.out == out + [src[p]] && r.value.srcPos == p + 1
  {
    if p >= |src| then Err(Truncated)
    else Ok(Yaz0State(p + 1, bits << 1, count - 1, out + [src[p]]))
  }

  /** A clear flag: the back-reference token at p (src/Compression.cpp:37-59). */
  function Yaz0Copy(src: seq<byte>, size: nat, out: seq<byte>, p: nat, bits: bv8, count: nat): (r: Result<Yaz0State>)
    requires count >= 1 && |out| < size
    ensures r.Ok? ==> |out| < |r.value.out| <= size && r.value.out[..|out|] == out
  {
    if p + 2 > |src| || (Yaz0LongToken(src, p) && p + 3 > |src|) then Err(Truncated)
    else
      var dist := Yaz0Distance(src, p);
      var len := Yaz0Length(src, p);
      var next := if Yaz0LongToken(src, p) then p + 3 else p + 2;
      if dist > |out| then Err(BadReference)
      else if |out| + len > size then Err(Overrun)
      else Ok(Yaz0State(next, bits << 1, count - 1, CopyBack(out, dist, len)))
  }

  /** Iterate `Yaz0Step` until `size` bytes have been produced. */
  function Yaz0Run(src: seq<byte>, size: nat, st: Yaz0State): (r: Result<seq<byte>>)
    requires |st.out| <= size
    ensures r.Ok? ==> |r.value| == size && r.value[..|st.out|] == st.out
    decreases size - |st.out|
  {
    if |st.out| >= size then Ok(st.out)
    else
      match Yaz0Step(src, size, st)
      case Err(e) => Err(e)
      case Ok(next) => Yaz0Run(src, size, next)
  }

  /** Decoded size of a Yaz0 stream: the big-endian word at offset 4. */
  function Yaz0Size(src: seq<byte>): u32
    requires |src| >= 8
  {
    U32BE(src, 4)
  }

  /**
    `Yaz0::Decompress` with the default `length == 0`: the output size comes
    from the header, tokens start at offset 16 (src/Compression.cpp:14-24).
  */
  function Yaz0Decode(src: seq<byte>): (r: Result<seq<byte>>)
    ensures r.Ok? ==> |src| >= 8 && |r.value| == Yaz0Size(src)
  {
    if |src| < 8 then Err(Truncated)
    else Yaz0Run(src, Yaz0Size(src), Yaz0State(16, 0, 0, []))
  }

  /**
    What one Yaz0 iteration does when it succeeds: the control byte is
    reloaded after every 8 flags and consumed from its top bit; a set flag
    appends the next source byte; Yaz0StepCopy gives the clear flag.
  */
  lemma Yaz0StepSpec(src: seq<byte>, size: nat, st: Yaz0State)
    requires |st.out| < size && Yaz0Step(src, size, st).Ok?
    ensures var r := Yaz0Step(src, size, st).value;
            (Yaz0Reloads(st) ==> st.srcPos < |src|) &&
            r.bits == Yaz0Control(src, st) << 1 &&
            r.count == (if Yaz0Reloads(st) then 8 else st.count) - 1
    ensures var r := Yaz0Step(src, size, st).value;
            var p := Yaz0TokenPos(st);
            Yaz0Control(src, st) & 0x80 != 0 ==>
              p < |src| && r.out == st.out + [src[p]] && r.srcPos == p + 1
  {
  }

  /** A successful iteration on a clear flag: the back-reference it appends. */
  lemma Yaz0StepCopy(src: seq<byte>, size: nat, st: Yaz0State)
    requires |st.out| < size && Yaz0Step(src, size, st).Ok?
    ensures var r := Yaz0Step(src, size, st).value;
            var p := Yaz0TokenPos(st);
            Yaz0Control(src, st) & 0x80 == 0 ==>
              p + 2 <= |src| && (Yaz0LongToken(src, p) ==> p + 3 <= |src|) &&
              Yaz0Distance(src, p) <= |st.out| &&
              |r.out| == |st.out| + Yaz0Length(src, p) &&
              r.srcPos == p + (if Yaz0LongToken(src, p) then 3 else 2) &&
              forall k :: |st.out| <= k < |r.out| ==> r.out[k] == r.out[k - Yaz0Distance(src, p)]
  {
    if Yaz0Control(src, st) & 0x80 == 0 {
      var count := if Yaz0Reloads(st) then 8 else st.count;
      assert Yaz0Step(src, size, st) == Yaz0Copy(src, size, st.out, Yaz0TokenPos(st), Yaz0Control(src, st), count);
      Yaz0CopyRepeats(src, size, st.out, Yaz0TokenPos(st), Yaz0Control(src, st), count);
    }
  }

  /** The bytes a successful back-reference appends repeat those Yaz0Distance before them. */
  lemma Yaz0CopyRepeats(src: seq<byte>, size: nat, out: seq<byte>, p: nat, bits: bv8, count: nat)
    requires count >= 1 && |out| < size && Yaz0Copy(src, size, out, p, bits, count).Ok?
    ensures p + 2 <= |src|
    ensures var r := Yaz0Copy(src, size, out, p, bits, count).value;
            forall k :: |out| <= k < |r.out| ==> r.out[k] == r.out[k - Yaz0Distance(src, p)]
  {
    CopyBackRepeats(out, Yaz0Distance(src, p), Yaz0Length(src, p));
  }

  lemma Yaz0RunFails(src: seq<byte>, size: nat, st: Yaz0State, e: Error)
    requires |st.out| < size && Yaz0Step(src, size, st) == Err(e)
    ensures Yaz0Run(src, size, st) == Err(e)
  {
  }

  lemma Yaz0RunSteps(src: seq<byte>, size: nat, st: Yaz0State, next: Yaz0State)
    requires |st.out| < size && Yaz0Step(src, size, st) == Ok(next)
    ensures |next.out| <= size && Yaz0Run(src, size, st) == Yaz0Run(src, size, next)
  {
  }

  /**
    The byte-by-byte back-reference copy shared by both decoders
    (src/Compression.cpp:53-58 and 157-173): `len` bytes are appended at
    `pos`, each read `dist` bytes before the byte being written.
  */
  method CopyWithin(dst: array<byte>, pos: nat, dist: nat, len: nat)
    requires 1 <= dist && (len == 0 || dist <= pos) && pos + len <= dst.Length
    modifies dst
    ensures dst[..pos + len] == CopyBack(old(dst[..pos]), dist, len)
  {
    ghost var before := dst[..pos];
    var copySrc := pos - dist;
    var dstPos := pos;
    for i := 0 to len
      invariant dstPos == pos + i && copySrc == dstPos - dist
      invariant dst[..dstPos] == CopyBack(before, dist, i)
    {
      ghost var prev := dst[..dstPos];
      dst[dstPos] := dst[copySrc];
      assert dst[..dstPos + 1] == prev + [prev[copySrc]];
      copySrc := copySrc + 1;
      dstPos := dstPos + 1;
    }
  }

  /** One flag bit of the decoder loop (src/Compression.cpp:17-64). */
  method Yaz0Iterate(src: seq<byte>, dst: array<byte>, srcPos: nat, bits: bv8, count: nat, dstPos: nat)
    returns (e: Option<Error>, srcPos': nat, bits': bv8, count': nat, dstPos': nat)
    requires dstPos < dst.Length
    modifies dst
    ensures e.Some? ==> Yaz0Step(src, dst.Length, Yaz0State(srcPos, bits, count, old(dst[..dstPos]))) == Err(e.value)
    ensures e.None? ==> dstPos' <= dst.Length
    ensures e.None? ==>
              Yaz0Step(src, dst.Length, Yaz0State(srcPos, bits, count, old(dst[..dstPos])))
                == Ok(Yaz0State(srcPos', bits', count', dst[..dstPos']))
  {
    ghost var st := Yaz0State(srcPos, bits, count, dst[..dstPos]);
    if count == 0 && srcPos >= |src| {
      e, srcPos', bits', count', dstPos' := Some(Truncated), srcPos, bits, count, dstPos;
    } else {
      var p, b, c := srcPos, bits, count;
      if c == 0 {
        b := src[p] as bv8;
        p := p + 1;
        c := 8;
      }
      assert b == Yaz0Control(src, st) && p == Yaz0TokenPos(st);
      if b & 0x80 != 0 {
        assert Yaz0Step(src, dst.Length, st) == Yaz0Literal(src, st.out, p, b, c);
        e, srcPos', bits', count', dstPos' := Yaz0LiteralInto(src, dst, p, b, c, dstPos);
      } else {
        assert Yaz0Step(src, dst.Length, st) == Yaz0Copy(src, dst.Length, st.out, p, b, c);
        e, srcPos', bits', count', dstPos' := Yaz0CopyInto(src, dst, p, b, c, dstPos);
      }
    }
  }

  method Yaz0LiteralInto(src: seq<byte>, dst: array<byte>, p: nat, bits: bv8, count: nat, dstPos: nat)
    returns (e: Option<Error>, srcPos': nat, bits': bv8, count': nat, dstPos': nat)
    requires dstPos < dst.Length && count >= 1
    modifies dst
    ensures e.Some? ==> Yaz0Literal(src, old(dst[..dstPos]), p, bits, count) == Err(e.value)
    ensures e.None? ==> dstPos' <= dst.Length
    ensures e.None? ==>
              Yaz0Literal(src, old(dst[..dstPos]), p, bits, count)
                == Ok(Yaz0State(srcPos', bits', count', dst[..dstPos']))
  {
    if p >= |src| {
      return Some(Truncated), p, bits, count, dstPos;
    }
    ghost var out := dst[..dstPos];
    dst[dstPos] := src[p];
    assert dst[..dstPos + 1] == out + [src[p]];
    return None, p + 1, bits << 1, count - 1, dstPos + 1;
  }

  /** Reads the two- or three-byte back-reference token at p (src/Compression.cpp:39-51). */
  method Yaz0ReadToken(src: seq<byte>, p: nat) returns (e: Option<Error>, dist: nat, len: nat, next: nat)
    ensures e.Some? <==> p + 2 > |src| || (Yaz0LongToken(src, p) && p + 3 > |src|)
    ensures e.Some? ==> e.value == Truncated
    ensures e.None? ==> dist == Yaz0Distance(src, p) && len == Yaz0Length(src, p)
    ensures e.None? ==> next == if Yaz0LongToken(src, p) then p + 3 else p + 2
  {
    if p + 2 > |src| {
      return Some(Truncated), 0, 0, p;
    }
    var b1, b2 := src[p], src[p + 1];
    len := Hi(b1);
    dist := Lo(b1) * 256 + Val(b2) + 1;
    next := p + 2;
    if len == 0 {
      if next >= |src| {
        return Some(Truncated), 0, 0, p;
      }
      len := Val(src[next]) + 0x12;
      next := next + 1;
    } else {
      len := len + 2;
    }
    e := None;
  }

  method Yaz0CopyInto(src: seq<byte>, dst: array<byte>, p: nat, bits: bv8, count: nat, dstPos: nat)
    returns (e: Option<Error>, srcPos': nat, bits': bv8, count': nat, dstPos': nat)
    requires dstPos < dst.Length && count >= 1
    modifies dst
    ensures e.Some? ==> Yaz0Copy(src, dst.Length, old(dst[..dstPos]), p, bits, count) == Err(e.value)
    ensures e.None? ==> dstPos' <= dst.Length
    ensures e.None? ==>
              Yaz0Copy(src, dst.Length, old(dst[..dstPos]), p, bits, count)
                == Ok(Yaz0State(srcPos', bits', count', dst[..dstPos']))
  {
    var dist, len, next;
    e, dist, len, next := Yaz0ReadToken(src, p);
    if e.Some? {
      return e, p, bits, count, dstPos;
    }
    if dist > dstPos {
      return Some(BadReference), p, bits, count, dstPos;
    }
    if dstPos + len > dst.Length {
      return Some(Overrun), p, bits, count, dstPos;
    }
    CopyWithin(dst, dstPos, dist, len);
    return None, next, bits << 1, count - 1, dstPos + len;
  }

  /** The decoder loop of src/Compression.cpp:7-70 over a `dst` array. */
  method Yaz0Decompress(src: seq<byte>) returns (r: Result<seq<byte>>)
    ensures r == Yaz0Decode(src)
  {
    if |src| < 8 {
      return Err(Truncated);
    }
    var size := Yaz0Size(src);
    var dst := new byte[size];
    var srcPos: nat, dstPos: nat, count: nat, bits: bv8 := 16, 0, 0, 0;
    while dstPos < size
      invariant dstPos <= size
      invariant Yaz0Run(src, size, Yaz0State(srcPos, bits, count, dst[..dstPos])) == Yaz0Decode(src)
      decreases size - dstPos
    {
      ghost var st := Yaz0State(srcPos, bits, count, dst[..dstPos]);
      var e;
      e, srcPos, bits, count, dstPos := Yaz0Iterate(src, dst, srcPos, bits, count, dstPos);
      if e.Some? {
        Yaz0RunFails(src, size, st, e.value);
        return Err(e.value);
      }
      Yaz0RunSteps(src, size, st, Yaz0State(srcPos, bits, count, dst[..dstPos]));
    }
    assert dst[..] == dst[..dstPos];
    return Ok(dst[..]);
  }

  // =====================================================================
  // Yay0
  // =====================================================================

  /**
    The decoder's registers: `bit_offset`, `bits`, `bit_count`, `ref_offset`
    (the link stream), `read_offset` (the chunk stream) and the bytes of
    `dst` written so far (`expand_offset` is their count).
  */
  datatype Yay0State = Yay0State(bitOffset: nat, bits: u32, bitCount: nat,
                                 refOffset: nat, readOffset: nat, out: seq<byte>)

  /** Bit 31 of a flag word: `bits & 0x80000000`. */
  predicate TopBit(bits: u32) {
    bits >= 0x8000_0000
  }

  /** `bits <<= 1` on a `uint32_t`. */
  function Shl1(bits: u32): u32 {
    bits * 2 % TWO_32
  }

  predicate Yay0Reloads(st: Yay0State) {
    st.bitCount == 0
  }

  /** The flag register used by this iteration. */
  function Yay0Flags(src: seq<byte>, st: Yay0State): u32
    requires !Yay0Reloads(st) || st.bitOffset + 4 <= |src|
  {
    if Yay0Reloads(st) then U32BE(src, st.bitOffset) else st.bits
  }

  /** The 4-bit length field of the link at q (0 means "length in the chunk stream"). */
  function Yay0RunLength(src: seq<byte>, q: nat): (n: nat)
    requires q + 2 <= |src|
    ensures n < 16
  {
    Hi(src[q])
  }

  /** Copy distance of the link at q: its low 12 bits plus one. */
  function Yay0Distance(src: seq<byte>, q: nat): (d: nat)
    requires q + 2 <= |src|
    ensures 1 <= d <= 0x1000
  {
    Lo(src[q]) * 256 + Val(src[q + 1]) + 1
  }

  /** The registers once this pass has loaded a new flag word if it needed one (lines 113-119). */
  function Yay0Loaded(src: seq<byte>, st: Yay0State): (r: Yay0State)
    requires !Yay0Reloads(st) || st.bitOffset + 4 <= |src|
    ensures r.bitCount >= 1 && r.out == st.out && r.refOffset == st.refOffset && r.readOffset == st.readOffset
  {
    if Yay0Reloads(st) then st.(bits := U32BE(src, st.bitOffset), bitCount := 32, bitOffset := st.bitOffset + 4)
    else st
  }

  /**
    One pass of the `do { ... } while (expand_offset < expand_limit)` body
    (src/Compression.cpp:112-177) with `offset == 0`; `limit` is
    `expand_limit` and `size` the length of the `dst` buffer.
  */
  function Yay0Step(src: seq<byte>, limit: nat, size: nat, st: Yay0State): (r: Result<Yay0State>)
    requires |st.out| <= limit
    ensures r.Ok? ==> |st.out| <= |r.value.out| <= size && r.value.out[..|st.out|] == st.out
    ensures r.Ok? && |st.out| < limit ==> |st.out| < |r.value.out| <= limit
  {
    if Yay0Reloads(st) && st.bitOffset + 4 > |src| then Err(Truncated)
    else
      var ld := Yay0Loaded(src, st);
      if TopBit(ld.bits) then Yay0Literal(src, size, ld) else Yay0Link(src, limit, size, ld)
  }

  /** A set flag: copy one byte of the chunk stream (lines 121-136). */
  function Yay0Literal(src: seq<byte>, size: nat, ld: Yay0State): (r: Result<Yay0State>)
    requires ld.bitCount >= 1
    ensures r.Ok? ==>
              ld.readOffset < |src| && |ld.out| < size &&
              r.value == ld.(bits := Shl1(ld.bits), bitCount := ld.bitCount - 1,
                             readOffset := ld.readOffset + 1, out := ld.out + [src[ld.readOffset]])
  {
    if ld.readOffset >= |src| then Err(Truncated)
    else if |ld.out| >= size then Err(Overrun)
    else Ok(ld.(bits := Shl1(ld.bits), bitCount := ld.bitCount - 1,
                readOffset := ld.readOffset + 1, out := ld.out + [src[ld.readOffset]]))
  }

  /**
    The copy length of the link at `ld.refOffset` before clamping: the
    nibble plus 2, or the next chunk byte plus 18 (lines 146-151).
  */
  function Yay0LinkLength(src: seq<byte>, ld: Yay0State): (n: nat)
    requires ld.refOffset + 2 <= |src|
    requires Yay0RunLength(src, ld.refOffset) == 0 ==> ld.readOffset < |src|
    ensures 2 <= n <= 255 + 18
  {
    if Yay0RunLength(src, ld.refOffset) == 0 then Val(src[ld.readOffset]) + 18
    else Yay0RunLength(src, ld.refOffset) + 2
  }

  /** A clear flag: a back-reference from the link stream (lines 136-174). */
  function Yay0Link(src: seq<byte>, limit: nat, size: nat, ld: Yay0State): (r: Result<Yay0State>)
    requires ld.bitCount >= 1 && |ld.out| <= limit
    ensures r.Ok? ==> |ld.out| <= |r.value.out| <= size && r.value.out[..|ld.out|] == ld.out
    ensures r.Ok? && |ld.out| < limit ==> |ld.out| < |r.value.out| <= limit
  {
    var q := ld.refOffset;
    if q + 2 > |src| then Err(Truncated)
    else if Yay0RunLength(src, q) == 0 && ld.readOffset >= |src| then Err(Truncated)
    else
      var n := Yay0LinkLength(src, ld);
      var readOffset := if Yay0RunLength(src, q) == 0 then ld.readOffset + 1 else ld.readOffset;
      var len := if n > limit - |ld.out| then limit - |ld.out| else n;
      var dist := Yay0Distance(src, q);
      if len > 0 && dist > |ld.out| then Err(BadReference)
      else if |ld.out| + len > size then Err(Overrun)
      else Ok(ld.(bits := Shl1(ld.bits), bitCount := ld.bitCount - 1, refOffset := q + 2,
                  readOffset := readOffset, out := CopyBack(ld.out, dist, len)))
  }

  /** Run the do-while loop: one pass, then repeat while `expand_offset < expand_limit`. */
  function Yay0Loop(src: seq<byte>, limit: nat, size: nat, st: Yay0State): (r: Result<seq<byte>>)
    requires |st.out| <= limit
    ensures r.Ok? ==> limit <= |r.value| <= size && r.value[..|st.out|] == st.out
    decreases limit - |st.out|
  {
    match Yay0Step(src, limit, size, st)
    case Err(e) => Err(e)
    case Ok(next) =>
      if |next.out| < limit then Yay0Loop(src, limit, size, next) else Ok(next.out)
  }

  /**
    The decoder proper, once `src` has been filled: header words at
    `src[4..8]`, `src[8..12]` and `src[12..16]`, flags from offset 16, and
    `size` bytes of output buffer (src/Compression.cpp:97-180).
  */
  function Yay0Expand(src: seq<byte>, size: nat): (r: Result<seq<byte>>)
    ensures r.Ok? ==> |r.value| == size
  {
    if |src| < 16 then Err(Truncated)
    else if size == 0 then Ok([])
    else
      match Yay0Loop(src, U32BE(src, 4), size, Yay0State(16, 0, 0, U32BE(src, 8), U32BE(src, 12), []))
      case Err(e) => Err(e)
      case Ok(out) => if |out| < size then Err(Uninitialised) else Ok(out)
  }

  /**
    `Yay0::Decompress` as written (src/Compression.cpp:87-94): after reading
    the size at stream offset 4 it does not seek back to 0, so `src` holds
    the stream from offset 8 on and its last 8 bytes are never filled.  Reads
    of those unfilled bytes are modelled as failures.
  */
  function Yay0DecompressAsWritten(stream: seq<byte>): (r: Result<seq<byte>>)
    ensures r.Ok? ==> |stream| >= 8 && |r.value| == U32BE(stream, 4)
  {
    if |stream| < 8 then Err(Truncated) else Yay0Expand(stream[8..], U32BE(stream, 4))
  }

  /** `Yay0::Decompress` with the seek back to 0 that its Yaz0 sibling performs (line 21). */
  function Yay0Decompress(stream: seq<byte>): (r: Result<seq<byte>>)
    ensures r.Ok? ==> |stream| >= 8 && |r.value| == U32BE(stream, 4)
  {
    if |stream| < 8 then Err(Truncated) else Yay0Expand(stream, U32BE(stream, 4))
  }

  /**
    What one Yay0 pass does when it succeeds: flag words are big-endian
    words read from `bitOffset` and consumed from bit 31; a set flag
    appends the next chunk byte, a clear flag reads a two-byte link and
    appends its length, clamped to what is left below the limit, each byte
    equal to the byte `Yay0Distance` positions before it.
  */
  lemma Yay0StepSpec(src: seq<byte>, limit: nat, size: nat, st: Yay0State)
    requires |st.out| <= limit && Yay0Step(src, limit, size, st).Ok?
    ensures var r := Yay0Step(src, limit, size, st).value;
            (Yay0Reloads(st) ==> st.bitOffset + 4 <= |src|) &&
            r.bits == Shl1(Yay0Flags(src, st)) &&
            r.bitCount == (if Yay0Reloads(st) then 32 else st.bitCount) - 1 &&
            r.bitOffset == st.bitOffset + (if Yay0Reloads(st) then 4 else 0)
    ensures var r := Yay0Step(src, limit, size, st).value;
            TopBit(Yay0Flags(src, st)) ==>
              st.readOffset < |src| && r.out == st.out + [src[st.readOffset]] &&
              r.readOffset == st.readOffset + 1 && r.refOffset == st.refOffset
    ensures var r := Yay0Step(src, limit, size, st).value;
            var q := st.refOffset;
            !TopBit(Yay0Flags(src, st)) ==>
              q + 2 <= |src| && r.refOffset == q + 2 &&
              (Yay0RunLength(src, q) == 0 ==> st.readOffset < |src|) &&
              r.readOffset == st.readOffset + (if Yay0RunLength(src, q) == 0 then 1 else 0) &&
              var n := if Yay0RunLength(src, q) == 0 then Val(src[st.readOffset]) + 18
                       else Yay0RunLength(src, q) + 2;
              |r.out| == |st.out| + (if n > limit - |st.out| then limit - |st.out| else n) &&
              (|r.out| > |st.out| ==> Yay0Distance(src, q) <= |st.out|) &&
              forall k :: |st.out| <= k < |r.out| ==> r.out[k] == r.out[k - Yay0Distance(src, q)]
  {
    var ld := Yay0Loaded(src, st);
    if !TopBit(ld.bits) {
      var n := Yay0LinkLength(src, ld);
      var len := if n > limit - |ld.out| then limit - |ld.out| else n;
      CopyBackRepeats(ld.out, Yay0Distance(src, ld.refOffset), len);
    }
  }

  lemma Yay0LoopFails(src: seq<byte>, limit: nat, size: nat, st: Yay0State, e: Error)
    requires |st.out| <= limit && Yay0Step(src, limit, size, st) == Err(e)
    ensures Yay0Loop(src, limit, size, st) == Err(e)
  {
  }

  lemma Yay0LoopSteps(src: seq<byte>, limit: nat, size: nat, st: Yay0State, next: Yay0State)
    requires |st.out| <= limit && Yay0Step(src, limit, size, st) == Ok(next) && |next.out| < limit
    ensures Yay0Loop(src, limit, size, st) == Yay0Loop(src, limit, size, next)
  {
  }

  lemma Yay0LoopEnds(src: seq<byte>, limit: nat, size: nat, st: Yay0State, next: Yay0State)
    requires |st.out| <= limit && Yay0Step(src, limit, size, st) == Ok(next) && |next.out| >= limit
    ensures Yay0Loop(src, limit, size, st) == Ok(next.out)
  {
  }

  /** One pass of the do-while body on the registers and the `dst` array. */
  method Yay0Iterate(src: seq<byte>, dst: array<byte>, limit: nat, st: Yay0State, pos: nat)
    returns (e: Option<Error>, next: Yay0State, pos': nat)
    requires pos <= limit && pos <= dst.Length && st.out == dst[..pos]
    modifies dst
    ensures e.Some? ==> Yay0Step(src, limit, dst.Length, st) == Err(e.value)
    ensures e.None? ==> pos' <= dst.Length && next.out == dst[..pos'] &&
                        Yay0Step(src, limit, dst.Length, st) == Ok(next)
  {
    var ld := st;
    if st.bitCount == 0 {
      if st.bitOffset + 4 > |src| {
        return Some(Truncated), st, pos;
      }
      ld := st.(bits := U32BE(src, st.bitOffset), bitCount := 32, bitOffset := st.bitOffset + 4);
    }
    assert ld == Yay0Loaded(src, st);
    if TopBit(ld.bits) {
      e, next, pos' := Yay0LiteralInto(src, dst, ld, pos);
    } else {
      e, next, pos' := Yay0LinkInto(src, dst, limit, ld, pos);
    }
  }

  method Yay0LiteralInto(src: seq<byte>, dst: array<byte>, ld: Yay0State, pos: nat)
    returns (e: Option<Error>, next: Yay0State, pos': nat)
    requires ld.bitCount >= 1 && pos <= dst.Length && ld.out == dst[..pos]
    modifies dst
    ensures e.Some? ==> Yay0Literal(src, dst.Length, ld) == Err(e.value)
    ensures e.None? ==> pos' <= dst.Length && next.out == dst[..pos'] &&
                        Yay0Literal(src, dst.Length, ld) == Ok(next)
  {
    if ld.readOffset >= |src| {
      return Some(Truncated), ld, pos;
    }
    if pos >= dst.Length {
      return Some(Overrun), ld, pos;
    }
    dst[pos] := src[ld.readOffset];
    assert dst[..pos + 1] == ld.out + [src[ld.readOffset]];
    next := ld.(bits := Shl1(ld.bits), bitCount := ld.bitCount - 1,
                readOffset := ld.readOffset + 1, out := dst[..pos + 1]);
    return None, next, pos + 1;
  }

  /**
    The reading half of a clear flag (lines 137-155): the link, its length
    from the nibble or the chunk stream, the clamp to the limit, and the
    checks that decide whether the copy can go ahead.
  */
  method Yay0ReadLink(src: seq<byte>, limit: nat, size: nat, ld: Yay0State)
    returns (e: Option<Error>, dist: nat, len: nat, readOffset: nat)
    requires ld.bitCount >= 1 && |ld.out| <= limit
    ensures e.Some? ==> Yay0Link(src, limit, size, ld) == Err(e.value)
    ensures e.None? ==> 1 <= dist && (len == 0 || dist <= |ld.out|) && |ld.out| + len <= size
    ensures e.None? ==>
              Yay0Link(src, limit, size, ld) ==
                Ok(ld.(bits := Shl1(ld.bits), bitCount := ld.bitCount - 1, refOffset := ld.refOffset + 2,
                       readOffset := readOffset, out := CopyBack(ld.out, dist, len)))
  {
    var pos := |ld.out|;
    var q := ld.refOffset;
    if q + 2 > |src| {
      return Some(Truncated), 0, 0, 0;
    }
    var runLength := Yay0RunLength(src, q);
    dist := Yay0Distance(src, q);
    if runLength == 0 && ld.readOffset >= |src| {
      return Some(Truncated), 0, 0, 0;
    }
    len := Yay0LinkLength(src, ld);
    readOffset := if runLength == 0 then ld.readOffset + 1 else ld.readOffset;
    if len > limit - pos {
      len := limit - pos;
    }
    if len > 0 && dist > pos {
      return Some(BadReference), dist, len, readOffset;
    }
    if pos + len > size {
      return Some(Overrun), dist, len, readOffset;
    }
    e := None;
  }

  /** A clear flag: read the link, then copy `len` bytes from `dist` back within `dst` (lines 157-173). */
  method Yay0LinkInto(src: seq<byte>, dst: array<byte>, limit: nat, ld: Yay0State, pos: nat)
    returns (e: Option<Error>, next: Yay0State, pos': nat)
    requires ld.bitCount >= 1 && pos <= limit && pos <= dst.Length && ld.out == dst[..pos]
    modifies dst
    ensures e.Some? ==> Yay0Link(src, limit, dst.Length, ld) == Err(e.value)
    ensures e.None? ==> pos' <= dst.Length && next.out == dst[..pos'] &&
                        Yay0Link(src, limit, dst.Length, ld) == Ok(next)
  {
    var dist, len, readOffset;
    e, dist, len, readOffset := Yay0ReadLink(src, limit, dst.Length, ld);
    if e.Some? {
      return e, ld, pos;
    }
    CopyWithin(dst, pos, dist, len);
    next := ld.(bits := Shl1(ld.bits), bitCount := ld.bitCount - 1, refOffset := ld.refOffset + 2,
                readOffset := readOffset, out := dst[..pos + len]);
    pos' := pos + len;
  }


  /** The decoder of src/Compression.cpp:97-180 over a `dst` array of `size` bytes. */
  method Yay0ExpandInto(src: seq<byte>, size: nat) returns (r: Result<seq<byte>>)
    ensures r == Yay0Expand(src, size)
  {
    if |src| < 16 {
      return Err(Truncated);
    }
    if size == 0 {
      return Ok([]);
    }
    var dst := new byte[size];
    var expandLimit := U32BE(src, 4);
    var st := Yay0State(16, 0, 0, U32BE(src, 8), U32BE(src, 12), []);
    var expandOffset: nat := 0;
    assert st.out == dst[..0];
    while true
      invariant expandOffset <= expandLimit && expandOffset <= size && st.out == dst[..expandOffset]
      invariant Yay0Loop(src, expandLimit, size, st) == Yay0Loop(src, expandLimit, size, Yay0State(16, 0, 0, U32BE(src, 8), U32BE(src, 12), []))
      decreases expandLimit - expandOffset
    {
      var e, next, pos := Yay0Iterate(src, dst, expandLimit, st, expandOffset);
      if e.Some? {
        Yay0LoopFails(src, expandLimit, size, st, e.value);
        return Err(e.value);
      }
      if pos >= expandLimit {
        Yay0LoopEnds(src, expandLimit, size, st, next);
        if pos < size {
          return Err(Uninitialised);
        }
        assert dst[..] == dst[..pos];
        return Ok(dst[..]);
      }
      Yay0LoopSteps(src, expandLimit, size, st, next);
      st, expandOffset := next, pos;
    }
  }

  // =====================================================================
  // Properties of the decoders
  // =====================================================================

  /**
    With the output buffer exactly as long as the loop limit, a pass that
    starts below the limit never writes past the buffer.
  */
  lemma Yay0StepInBounds(src: seq<byte>, limit: nat, st: Yay0State)
    requires |st.out| < limit
    ensures Yay0Step(src, limit, limit, st) != Err(Overrun)
    ensures Yay0Step(src, limit, limit, st) != Err(Uninitialised)
  {
    if !(Yay0Reloads(st) && st.bitOffset + 4 > |src|) {
      var ld := Yay0Loaded(src, st);
      if !TopBit(ld.bits) {
        assert Yay0Link(src, limit, limit, ld) != Err(Overrun);
      }
    }
  }

  lemma {:induction false} Yay0LoopInBounds(src: seq<byte>, limit: nat, st: Yay0State)
    requires |st.out| < limit
    ensures Yay0Loop(src, limit, limit, st) != Err(Overrun)
    ensures Yay0Loop(src, limit, limit, st) != Err(Uninitialised)
    decreases limit - |st.out|
  {
    Yay0StepInBounds(src, limit, st);
    match Yay0Step(src, limit, limit, st)
    case Err(e) =>
    case Ok(next) =>
      if |next.out| < limit {
        Yay0LoopInBounds(src, limit, next);
      }
  }

  /**
    The corrected decoder, whose buffer size and loop limit are both the
    word at offset 4, never overruns the buffer and never hands out
    unwritten bytes: every failure comes from a malformed stream.
  */
  lemma Yay0DecompressSafe(stream: seq<byte>)
    ensures Yay0Decompress(stream) != Err(Overrun)
    ensures Yay0Decompress(stream) != Err(Uninitialised)
  {
    if |stream| >= 16 && U32BE(stream, 4) != 0 {
      var size := U32BE(stream, 4);
      var init := Yay0State(16, 0, 0, U32BE(stream, 8), U32BE(stream, 12), []);
      Yay0LoopInBounds(stream, size, init);
      assert Yay0Decompress(stream) == Yay0Expand(stream, size);
      match Yay0Loop(stream, size, size, init)
      case Err(e) =>
      case Ok(out) => assert |out| >= size;
    }
  }

  /**
    A one-byte stream: header "Yay0", size 1, link and chunk sections at
    offset 20, one flag word with its top bit set, and the literal 'A'.
  */
  function Yay0OneLiteral(): seq<byte> {
    [0x59, 0x61, 0x79, 0x30, 0, 0, 0, 1, 0, 0, 0, 20, 0, 0, 0, 20,
     0x80, 0, 0, 0, 0x41]
  }

  /**
    The decoder as written fails on the smallest well-formed stream, which
    the corrected decoder expands to the single byte it holds.
  */
  lemma Yay0DecompressSeekMissing()
    ensures Yay0DecompressAsWritten(Yay0OneLiteral()) == Err(Truncated)
    ensures Yay0Decompress(Yay0OneLiteral()) == Ok([0x41])
  {
    var s := Yay0OneLiteral();
    assert U32BE(s, 4) == 1 && U32BE(s, 8) == 20 && U32BE(s, 12) == 20;
    var st := Yay0State(16, 0, 0, 20, 20, []);
    assert U32BE(s, 16) == 0x8000_0000;
    var ld := Yay0Loaded(s, st);
    assert TopBit(ld.bits);
    assert Yay0Step(s, 1, 1, st) == Ok(ld.(bits := Shl1(ld.bits), bitCount := 31, readOffset := 21, out := [0x41]));
  }
}
