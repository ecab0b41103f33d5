/** The letter codec of the translation files and its streams (tools/dev/fcitx-po-parser.c:84-101,
    187-255). */
module PoCodec {

  type Byte = b: nat | b < 256

  const A: Byte := 97

  const ENCODE_BUF_SIZE: nat := 1024
  const DECODE_BUF_SIZE: nat := 1024

  /* ----- what the two directions mean ----- */

  /** Two letters for each byte, the low half first. */
  function Encode(s: seq<Byte>): (r: seq<Byte>)
    ensures |r| == 2 * |s| && AllLetters(r)
  {
    if s == [] then []
    else
      var last := |s| - 1;
      Encode(s[..last]) + [A + s[last] % 16, A + s[last] / 16]
  }

  predicate CheckChar(c: Byte) {
    A <= c < A + 0x10
  }

  function HexToChar(low: Byte, high: Byte): Byte
    requires CheckChar(low) && CheckChar(high)
  {
    (low - A) + (high - A) * 16
  }

  /** The letters among the bytes, in order. */
  function Filter(s: seq<Byte>): (r: seq<Byte>)
    ensures |r| <= |s| && forall i :: 0 <= i < |r| ==> CheckChar(r[i])
  {
    if s == [] then []
    else Filter(s[..|s| - 1]) + if CheckChar(s[|s| - 1]) then [s[|s| - 1]] else []
  }

  predicate AllLetters(s: seq<Byte>) {
    forall i :: 0 <= i < |s| ==> CheckChar(s[i])
  }

  /** One byte for each pair of letters; an odd last letter is dropped. */
  function Decode(s: seq<Byte>): (r: seq<Byte>)
    requires AllLetters(s)
    ensures |r| == |s| / 2
  {
    if |s| < 2 then []
    else if |s| % 2 == 1 then Decode(s[..|s| - 1])
    else Decode(s[..|s| - 2]) + [HexToChar(s[|s| - 2], s[|s| - 1])]
  }

  function Concat(blocks: seq<seq<Byte>>): seq<Byte> {
    if blocks == [] then [] else Concat(blocks[..|blocks| - 1]) + blocks[|blocks| - 1]
  }

  /** What fread delivers until it delivers nothing. */
  predicate Reads(blocks: seq<seq<Byte>>, size: nat) {
    forall i :: 0 <= i < |blocks| ==> 0 < |blocks[i]| <= size
  }

  /* ----- the codec itself ----- */

  lemma {:induction false} FilterLetters(s: seq<Byte>)
    requires AllLetters(s)
    ensures Filter(s) == s
  {
    if s != [] {
      FilterLetters(s[..|s| - 1]);
      assert s == s[..|s| - 1] + [s[|s| - 1]];
    }
  }

  lemma {:induction false} FilterConcat(a: seq<Byte>, b: seq<Byte>)
    ensures Filter(a + b) == Filter(a) + Filter(b)
    decreases |b|
  {
    if b == [] {
      assert a + b == a;
    } else {
      assert (a + b)[..|a + b| - 1] == a + b[..|b| - 1];
      FilterConcat(a, b[..|b| - 1]);
    }
  }

  /** Decoding undoes encoding. */
  lemma {:induction false} DecodeOfEncode(s: seq<Byte>)
    ensures Decode(Encode(s)) == s
  {
    if s != [] {
      var init, last := s[..|s| - 1], s[|s| - 1];
      DecodeOfEncode(init);
      var e := Encode(s);
      assert e[..|e| - 2] == Encode(init) && e[|e| - 2] == A + last % 16 && e[|e| - 1] == A + last / 16;
      assert HexToChar(A + last % 16, A + last / 16) == last;
      assert s == init + [last];
    }
  }

  /** Encoding undoes decoding, on whole pairs of letters. */
  lemma {:induction false} EncodeDecode(u: seq<Byte>)
    requires AllLetters(u) && |u| % 2 == 0
    ensures Encode(Decode(u)) == u
    decreases |u|
  {
    if u != [] {
      var init := u[..|u| - 2];
      EncodeDecode(init);
      var low, high := u[|u| - 2], u[|u| - 1];
      var c := HexToChar(low, high);
      assert (Decode(init) + [c])[..|Decode(init)|] == Decode(init);
      assert Decode(u) == Decode(init) + [c];
      HalvesOf(low, high);
      assert u == init + [low, high];
    }
  }

  /** The letters are those from a to p. */
  lemma LettersExactly(c: Byte)
    ensures CheckChar(c) <==> 'a' as int <= c <= 'p' as int
  {
  }

  /** Each byte is written as two of them, a for 0 and so on, the low half first. */
  lemma {:induction false} EncodedAt(s: seq<Byte>, i: nat)
    requires i < |s|
    ensures var low, high := Encode(s)[2 * i] - 'a' as int, Encode(s)[2 * i + 1] - 'a' as int;
      0 <= low < 16 && 0 <= high < 16 && s[i] == low + 16 * high
  {
    if i < |s| - 1 { EncodedAt(s[..|s| - 1], i); }
  }

  lemma HalvesOf(low: Byte, high: Byte)
    requires CheckChar(low) && CheckChar(high)
    ensures HexToChar(low, high) % 16 == low - A && HexToChar(low, high) / 16 == high - A
  {
  }

  lemma {:induction false} DecodeConcat(a: seq<Byte>, b: seq<Byte>)
    requires AllLetters(a) && AllLetters(b) && |a| % 2 == 0
    ensures Decode(a + b) == Decode(a) + Decode(b)
    decreases |b|
  {
    hide Decode, CheckChar;
    if b == [] {
      assert a + b == a && Decode(b) == [];
    } else if |b| % 2 == 1 {
      var init := b[..|b| - 1];
      DecodeConcat(a, init);
      DecodeOdd(a + init, b[|b| - 1]);
      DecodeOdd(init, b[|b| - 1]);
      assert a + b == (a + init) + [b[|b| - 1]] && b == init + [b[|b| - 1]];
    } else {
      var init, low, high := b[..|b| - 2], b[|b| - 2], b[|b| - 1];
      DecodeConcat(a, init);
      DecodePair(a + init, low, high);
      DecodePair(init, low, high);
      assert a + b == (a + init) + [low, high] && b == init + [low, high];
    }
  }

  lemma {:induction false} DecodePair(s: seq<Byte>, low: Byte, high: Byte)
    requires AllLetters(s) && CheckChar(low) && CheckChar(high) && |s| % 2 == 0
    ensures Decode(s + [low, high]) == Decode(s) + [HexToChar(low, high)]
  {
    hide CheckChar, HexToChar;
    assert (s + [low, high])[..|s|] == s;
  }

  lemma {:induction false} DecodeOdd(s: seq<Byte>, c: Byte)
    requires AllLetters(s) && CheckChar(c) && |s| % 2 == 0
    ensures Decode(s + [c]) == Decode(s)
  {
    hide CheckChar, HexToChar;
    assert (s + [c])[..|s|] == s;
  }

  /* ----- buffers ----- */

  /** encode_string, into the front of a buffer, with the terminating zero behind it.  `inside`
      turns false where the source writes the zero behind the buffer. */
  method EncodeString(input: seq<Byte>, out: array<Byte>) returns (inside: bool)
    requires 2 * |input| <= out.Length
    modifies out
    ensures out[..2 * |input|] == Encode(input)
    ensures inside <==> 2 * |input| < out.Length
    ensures inside ==> out[2 * |input|] == 0
  {
    var i := 0;
    while i < |input|
      invariant 0 <= i <= |input| && out[..2 * i] == Encode(input[..i])
    {
      out[i * 2] := A + input[i] % 16;
      out[i * 2 + 1] := A + input[i] / 16;
      assert input[..i + 1][..i] == input[..i];
      assert out[..2 * (i + 1)] == out[..2 * i] + [A + input[i] % 16, A + input[i] / 16];
      i := i + 1;
    }
    assert input[..i] == input;
    ghost var written := out[..2 * |input|];
    inside := 2 * |input| < out.Length;
    if inside { out[2 * |input|] := 0; }
    assert out[..2 * |input|] == written;
  }

  /** memmove within one buffer, one place down. */
  method MoveDown(buff: array<Byte>, i: nat, n: nat)
    requires i + n + 1 <= buff.Length
    modifies buff
    ensures buff[..i] == old(buff[..i]) && buff[i..i + n] == old(buff[i + 1..i + n + 1])
    ensures forall k :: i + n <= k < buff.Length ==> buff[k] == old(buff[k])
  {
    forall k | i <= k < i + n {
      buff[k] := buff[k + 1];
    }
  }

  /** check_buff: junk is removed in place; what stays is the letters in order. */
  method CheckBuff(buff: array<Byte>, size: nat) returns (len: nat)
    requires size <= buff.Length
    modifies buff
    ensures len <= size && buff[..len] == Filter(old(buff[..size]))
    ensures forall k :: size <= k < buff.Length ==> buff[k] == old(buff[k])
  {
    hide Filter, CheckChar;
    ghost var whole := Filter(buff[..size]);
    len := size;
    var i := 0;
    while i < len
      invariant 0 <= i <= len <= size && AllLetters(buff[..i])
      invariant Filter(buff[..len]) == whole
      invariant forall k :: size <= k < buff.Length ==> buff[k] == old(buff[k])
      decreases len - i
    {
      ghost var was := buff[..len];
      if CheckChar(buff[i]) {
        assert buff[..i + 1] == buff[..i] + [buff[i]];
        i := i + 1;
      } else {
        len := len - 1;
        DropJunk(was, i);
        if len <= i {
          assert buff[..len] == was[..i] == was[..i] + was[i + 1..];
        } else {
          MoveDown(buff, i, len - i);
          assert buff[..len] == buff[..i] + buff[i..len] == was[..i] + was[i + 1..];
        }
      }
    }
    FilterLetters(buff[..len]);
  }

  lemma {:induction false} DropJunk(s: seq<Byte>, i: nat)
    requires i < |s| && !CheckChar(s[i])
    ensures Filter(s[..i] + s[i + 1..]) == Filter(s)
  {
    var a, b := s[..i], s[i + 1..];
    JunkIsNothing(a, s[i]);
    hide Filter;
    assert s == (a + [s[i]]) + b;
    FilterConcat(a + [s[i]], b);
    FilterConcat(a, b);
  }

  lemma {:induction false} JunkIsNothing(a: seq<Byte>, c: Byte)
    requires !CheckChar(c)
    ensures Filter(a + [c]) == Filter(a)
  {
    assert (a + [c])[..|a|] == a;
  }

  /* ----- the streams ----- */

  /** encode_stdin: block by block.  A terminator is written behind the buffer if and only if
      some block is full. */
  method EncodeStdin(blocks: seq<seq<Byte>>) returns (output: seq<Byte>, inside: bool)
    requires Reads(blocks, ENCODE_BUF_SIZE)
    ensures output == Encode(Concat(blocks))
    ensures inside <==> forall i :: 0 <= i < |blocks| ==> |blocks[i]| < ENCODE_BUF_SIZE
  {
    hide Encode, Concat;
    var outBuff := new Byte[2 * ENCODE_BUF_SIZE];
    output, inside := [], true;
    var r := 0;
    NothingEncoded(blocks);
    while r < |blocks|
      invariant 0 <= r <= |blocks| && output == Encode(Concat(blocks[..r]))
      invariant inside <==> forall i :: 0 <= i < r ==> |blocks[i]| < ENCODE_BUF_SIZE
    {
      var terminated := EncodeString(blocks[r], outBuff);
      inside := inside && terminated;
      BlockEncoded(blocks, r);
      output := output + outBuff[..2 * |blocks[r]|];
      r := r + 1;
    }
    assert blocks[..r] == blocks;
  }

  lemma NothingEncoded(blocks: seq<seq<Byte>>)
    ensures Encode(Concat(blocks[..0])) == []
  {
  }

  lemma BlockEncoded(blocks: seq<seq<Byte>>, r: nat)
    requires r < |blocks|
    ensures Encode(Concat(blocks[..r + 1])) == Encode(Concat(blocks[..r])) + Encode(blocks[r])
  {
    hide Encode;
    assert blocks[..r + 1][..r] == blocks[..r];
    EncodeConcat(Concat(blocks[..r]), blocks[r]);
  }

  lemma {:induction false} EncodeConcat(a: seq<Byte>, b: seq<Byte>)
    ensures Encode(a + b) == Encode(a) + Encode(b)
    decreases |b|
  {
    if b == [] {
      assert a + b == a;
    } else {
      var init, last := b[..|b| - 1], b[|b| - 1];
      EncodeConcat(a, init);
      EncodeMore(a + init, last);
      EncodeMore(init, last);
      hide Encode;
      assert a + b == (a + init) + [last] && b == init + [last];
    }
  }

  lemma {:induction false} EncodeMore(s: seq<Byte>, c: Byte)
    ensures Encode(s + [c]) == Encode(s) + [A + c % 16, A + c / 16]
  {
    assert (s + [c])[..|s|] == s;
  }

  /** The letter carried to the next block. */
  function Carried(s: seq<Byte>): seq<Byte> {
    s[|s| / 2 * 2..]
  }

  /** Read r finds no room behind a carried letter: it is full, and the letters before it are
      an odd number. */
  predicate ReadOverruns(blocks: seq<seq<Byte>>, r: nat)
    requires r < |blocks|
  {
    |blocks[r]| == DECODE_BUF_SIZE * 2 && |Filter(Concat(blocks[..r]))| % 2 == 1
  }

  /** decode_stdin: block by block, an odd letter being carried over.  The array has the one place
      more that a full read behind a carried letter needs; `inside` tells whether the places
      of the source's buffer are enough. */
  method DecodeStdin(blocks: seq<seq<Byte>>) returns (output: seq<Byte>, inside: bool)
    requires Reads(blocks, DECODE_BUF_SIZE * 2)
    ensures output == Decode(Filter(Concat(blocks)))
    ensures inside <==> forall r :: 0 <= r < |blocks| ==> !ReadOverruns(blocks, r)
  {
    hide Filter, Decode, Concat, ReadOverruns, Carried;
    var inBuff := new Byte[DECODE_BUF_SIZE * 2 + 1];
    var outBuff := new Byte[DECODE_BUF_SIZE];
    output, inside := [], true;
    var left, r := 0, 0;
    NothingRead(blocks);
    while r < |blocks|
      invariant 0 <= r <= |blocks| && left <= 1
      invariant inBuff[..left] == Carried(Filter(Concat(blocks[..r])))
      invariant output == Decode(Filter(Concat(blocks[..r])))
      invariant inside <==> forall i :: 0 <= i < r ==> !ReadOverruns(blocks, i)
    {
      var len := |blocks[r]|;
      RoomForRead(blocks, r, left);
      inside := inside && left + len <= DECODE_BUF_SIZE * 2;
      Fill(inBuff, left, blocks[r]);
      ghost var filled := inBuff[..left + len];
      len := CheckBuff(inBuff, len + left);
      ghost var kept := inBuff[..len];
      BlockRead(blocks, r, filled, kept);
      var count := len / 2;
      DecodePairs(inBuff, len, outBuff);
      output := output + outBuff[..count];
      left := len % 2;
      if left != 0 {
        inBuff[0] := inBuff[len - 1];
      }
      StillCarried(inBuff[..left], kept);
      r := r + 1;
    }
    assert blocks[..r] == blocks;
  }

  lemma NothingRead(blocks: seq<seq<Byte>>)
    ensures Filter(Concat(blocks[..0])) == [] && Decode([]) == [] && Carried([]) == []
  {
  }

  lemma RoomForRead(blocks: seq<seq<Byte>>, r: nat, left: nat)
    requires r < |blocks| && Reads(blocks, DECODE_BUF_SIZE * 2)
    requires left == |Carried(Filter(Concat(blocks[..r])))|
    ensures left + |blocks[r]| <= DECODE_BUF_SIZE * 2 <==> !ReadOverruns(blocks, r)
  {
    hide Filter, Concat;
  }

  lemma StillCarried(front: seq<Byte>, kept: seq<Byte>)
    requires |front| == |kept| % 2 && (front != [] ==> front[0] == kept[|kept| - 1])
    ensures front == Carried(kept)
  {
  }

  /** fread behind the carried letter. */
  method Fill(buff: array<Byte>, left: nat, block: seq<Byte>)
    requires left + |block| <= buff.Length
    modifies buff
    ensures buff[..left + |block|] == old(buff[..left]) + block
  {
    forall k | 0 <= k < |block| {
      buff[left + k] := block[k];
    }
  }

  method DecodePairs(buff: array<Byte>, len: nat, outBuff: array<Byte>)
    requires len <= buff.Length && len / 2 <= outBuff.Length && AllLetters(buff[..len]) && buff != outBuff
    modifies outBuff
    ensures outBuff[..len / 2] == Decode(buff[..len])
  {
    var i := 0;
    while i < len / 2
      invariant 0 <= i <= len / 2 && outBuff[..i] == Decode(buff[..len][..2 * i])
    {
      assert CheckChar(buff[..len][2 * i]) && CheckChar(buff[..len][2 * i + 1]);
      assert buff[..len][..2 * i + 2][..2 * i] == buff[..len][..2 * i];
      outBuff[i] := HexToChar(buff[i * 2], buff[i * 2 + 1]);
      i := i + 1;
    }
    assert len % 2 == 1 ==> buff[..len][..2 * i] == buff[..len][..len - 1];
    assert len % 2 == 0 ==> buff[..len][..2 * i] == buff[..len];
  }

  /** One block: the letters so far, without the carried one, are decoded; the rest is in the
      buffer. */
  lemma {:induction false} BlockRead(blocks: seq<seq<Byte>>, r: nat, filled: seq<Byte>, kept: seq<Byte>)
    requires r < |blocks|
    requires filled == Carried(Filter(Concat(blocks[..r]))) + blocks[r] && kept == Filter(filled)
    ensures Filter(Concat(blocks[..r + 1])) ==
      Filter(Concat(blocks[..r]))[..|Filter(Concat(blocks[..r]))| / 2 * 2] + kept
    ensures Decode(Filter(Concat(blocks[..r + 1]))) == Decode(Filter(Concat(blocks[..r]))) + Decode(kept)
    ensures Carried(Filter(Concat(blocks[..r + 1]))) == Carried(kept)
  {
    hide Decode, CheckChar, Carried;
    var before := Filter(Concat(blocks[..r]));
    assert blocks[..r + 1][..r] == blocks[..r];
    FilterConcat(Concat(blocks[..r]), blocks[r]);
    FilterConcat(Carried(before), blocks[r]);
    CarriedIsLetters(before);
    FilterLetters(Carried(before));
    CarryOver(before, Filter(blocks[r]));
  }

  lemma CarriedIsLetters(s: seq<Byte>)
    requires AllLetters(s)
    ensures AllLetters(Carried(s))
  {
  }

  lemma {:induction false} CarryOver(before: seq<Byte>, letters: seq<Byte>)
    requires AllLetters(before) && AllLetters(letters) && AllLetters(Carried(before) + letters)
    ensures before + letters == before[..|before| / 2 * 2] + (Carried(before) + letters)
    ensures Decode(before + letters) == Decode(before) + Decode(Carried(before) + letters)
    ensures Carried(before + letters) == Carried(Carried(before) + letters)
  {
    hide Decode, CheckChar;
    var even := before[..|before| / 2 * 2];
    assert before == even + Carried(before);
    assert before + letters == even + (Carried(before) + letters);
    DecodeConcat(even, Carried(before) + letters);
    DecodeConcat(even, Carried(before));
    assert Decode(Carried(before)) == [];
  }

  /* ----- the whole way round ----- */

  /** t is e with bytes inserted that are no letters. */
  ghost predicate Interspersed(e: seq<Byte>, t: seq<Byte>) {
    if t == [] then e == []
    else
      var c := t[|t| - 1];
      || (!CheckChar(c) && Interspersed(e, t[..|t| - 1]))
      || (e != [] && e[|e| - 1] == c && Interspersed(e[..|e| - 1], t[..|t| - 1]))
  }

  /** Letters stand interspersed in a text if and only if filtering the text gives them. */
  lemma {:induction false} InterspersedIsFiltered(e: seq<Byte>, t: seq<Byte>)
    requires AllLetters(e)
    ensures Interspersed(e, t) <==> Filter(t) == e
    decreases |t|
  {
    if t != [] {
      var init, c := t[..|t| - 1], t[|t| - 1];
      InterspersedIsFiltered(e, init);
      if e != [] {
        InterspersedIsFiltered(e[..|e| - 1], init);
        assert e == e[..|e| - 1] + [e[|e| - 1]];
      }
      if CheckChar(c) && Filter(t) == e {
        assert e[..|e| - 1] == Filter(init);
      }
    }
  }

  /** What the encoder writes for any reads, interspersed with whatever is no letter and split
      into any other reads, is what the decoder makes those reads' bytes of.  Neither leaves its
      buffers if and only if no read of the encoder is full and no read of the decoder overruns. */
  method RoundTrip(input: seq<seq<Byte>>, blocks: seq<seq<Byte>>)
      returns (decoded: seq<Byte>, encodedInside: bool, decodedInside: bool)
    requires Reads(input, ENCODE_BUF_SIZE) && Reads(blocks, DECODE_BUF_SIZE * 2)
    requires Interspersed(Encode(Concat(input)), Concat(blocks))
    ensures decoded == Concat(input)
    ensures encodedInside <==> forall i :: 0 <= i < |input| ==> |input[i]| < 1024
    ensures decodedInside <==> forall r :: 0 <= r < |blocks| ==>
      !(|blocks[r]| == 2048 && |Filter(Concat(blocks[..r]))| % 2 == 1)
  {
    hide Encode, Filter, Decode, Concat, Interspersed;
    var encoded;
    encoded, encodedInside := EncodeStdin(input);
    InterspersedIsFiltered(encoded, Concat(blocks));
    DecodeOfEncode(Concat(input));
    decoded, decodedInside := DecodeStdin(blocks);
    forall r | 0 <= r < |blocks|
      ensures ReadOverruns(blocks, r) <==> |blocks[r]| == 2048 && |Filter(Concat(blocks[..r]))| % 2 == 1
    {
    }
  }
}
