/** Counter-mode decryption of the mirroring payloads, chunk by chunk, with a saved part of a block. */
module MirrorCrypto {
  import opened Bytes

  const BLOCK := 16

  /** data under the keystream from position pos on. */
  function Xor(data: seq<byte>, keystream: nat -> byte, pos: nat): (r: seq<byte>)
    ensures |r| == |data|
  {
    seq(|data|, i requires 0 <= i < |data| => data[i] ^ keystream(pos + i))
  }

  lemma XorIs(data: seq<byte>, result: seq<byte>, keystream: nat -> byte, pos: nat)
    requires |result| == |data| && forall i :: 0 <= i < |data| ==> result[i] == data[i] ^ keystream(pos + i)
    ensures result == Xor(data, keystream, pos)
  {
  }

  /** Two pieces under consecutive stretches of keystream are one piece under the whole stretch. */
  lemma XorConcat(a: seq<byte>, b: seq<byte>, keystream: nat -> byte, pos: nat)
    ensures Xor(a, keystream, pos) + Xor(b, keystream, pos + |a|) == Xor(a + b, keystream, pos)
  {
  }

  /** Decryption undoes encryption. */
  lemma XorTwice(data: seq<byte>, keystream: nat -> byte, pos: nat)
    ensures Xor(Xor(data, keystream, pos), keystream, pos) == data
  {
    forall i | 0 <= i < |data|
      ensures Xor(Xor(data, keystream, pos), keystream, pos)[i] == data[i]
    {
      XorByteTwice(data[i], keystream(pos + i));
    }
  }

  lemma XorByteTwice(a: byte, k: byte)
    ensures (a ^ k) ^ k == a
  {
  }

  lemma XorZero(k: byte)
    ensures 0 ^ k == k
  {
  }

  function Zeros(n: nat): (r: seq<byte>)
    ensures |r| == n
  {
    seq(n, _ => 0)
  }

  /** Data padded with zeros comes out as the data, then the bare keystream. */
  lemma XorPadded(data: seq<byte>, n: nat, keystream: nat -> byte, pos: nat)
    ensures Xor(data + Zeros(n), keystream, pos)[..|data|] == Xor(data, keystream, pos)
    ensures forall i :: |data| <= i < |data| + n ==> Xor(data + Zeros(n), keystream, pos)[i] == keystream(pos + i)
  {
    assert (data + Zeros(n))[..|data|] == data;
    forall i | |data| <= i < |data| + n
      ensures Xor(data + Zeros(n), keystream, pos)[i] == keystream(pos + i)
    {
      XorZero(keystream(pos + i));
    }
  }

  class AesCtr {
    const keystream: nat -> byte
    var position: nat
    var blockOffset: nat

    /** block_offset says where in its block the cipher is. */
    ghost predicate Synced()
      reads this
    {
      blockOffset == position % BLOCK
    }

    constructor (keystream: nat -> byte)
      ensures this.keystream == keystream && position == 0 && blockOffset == 0 && Synced()
    {
      this.keystream := keystream;
      position, blockOffset := 0, 0;
    }

    /** The cipher update: len bytes of one buffer into another, or in place. */
    method Update(input: array<byte>, inOff: nat, output: array<byte>, outOff: nat, len: nat)
      requires inOff + len <= input.Length && outOff + len <= output.Length
      requires input == output ==> inOff == outOff
      modifies this`position, output
      ensures position == old(position) + len
      ensures output[outOff..outOff + len] == Xor(old(input[inOff..inOff + len]), keystream, old(position))
      ensures output[..outOff] == old(output[..outOff]) && output[outOff + len..] == old(output[outOff + len..])
    {
      hide Xor;
      ghost var data, after := input[inOff..inOff + len], output[outOff + len..];
      forall k | outOff <= k < outOff + len {
        output[k] := input[inOff + (k - outOff)] ^ keystream(position + (k - outOff));
      }
      assert output[outOff + len..] == after;
      ghost var result := output[outOff..outOff + len];
      forall i | 0 <= i < len
        ensures result[i] == data[i] ^ keystream(position + i)
      {
        assert result[i] == output[outOff + i] && data[i] == old(input[inOff + i]);
      }
      XorIs(data, result, keystream, position);
      position := position + len;
    }

    method Encrypt(input: array<byte>, inOff: nat, output: array<byte>, outOff: nat, len: nat)
      requires inOff + len <= input.Length && outOff + len <= output.Length
      requires input == output ==> inOff == outOff
      modifies this, output
      ensures position == old(position) + len
      ensures output[outOff..outOff + len] == Xor(old(input[inOff..inOff + len]), keystream, old(position))
      ensures output[..outOff] == old(output[..outOff]) && output[outOff + len..] == old(output[outOff + len..])
      ensures old(Synced()) ==> Synced()
      ensures blockOffset == (old(blockOffset) + len) % BLOCK
    {
      hide Xor;
      Update(input, inOff, output, outOff, len);
      blockOffset := (blockOffset + len) % BLOCK;
    }

    /** Decrypting leaves block_offset alone: it stays right exactly for whole blocks. */
    method Decrypt(input: array<byte>, inOff: nat, output: array<byte>, outOff: nat, len: nat)
      requires inOff + len <= input.Length && outOff + len <= output.Length
      requires input == output ==> inOff == outOff
      modifies this`position, output
      ensures position == old(position) + len
      ensures output[outOff..outOff + len] == Xor(old(input[inOff..inOff + len]), keystream, old(position))
      ensures output[..outOff] == old(output[..outOff]) && output[outOff + len..] == old(output[outOff + len..])
      ensures old(Synced()) ==> (Synced() <==> len % BLOCK == 0)
    {
      hide Xor;
      Update(input, inOff, output, outOff, len);
    }

    /** Go on to the next block boundary, discarding keystream, if not at one. */
    method StartFreshBlock()
      requires Synced()
      modifies this
      ensures Synced() && position % BLOCK == 0
      ensures old(position) <= position < old(position) + BLOCK
    {
      if blockOffset == 0 {
        return;
      }
      var waste := new byte[BLOCK](_ => 0);
      Encrypt(waste, 0, waste, 0, BLOCK - blockOffset);
    }
  }

  /** The keystream bytes left of the current block when pos bytes are used up. */
  function Carry(pos: nat): nat { (BLOCK - pos % BLOCK) % BLOCK }

  /** It is what is missing to the next multiple of 16, so at most 15, which is attained. */
  lemma CarryExactly(pos: nat)
    ensures 0 <= Carry(pos) <= 15 && (pos + Carry(pos)) % 16 == 0
    ensures Carry(16 * pos + 1) == 15
  {
    assert (16 * pos + 1) % 16 == 1;
  }

  /** The last count bytes of the block are the keystream up to the position. */
  ghost predicate Saved(block: seq<byte>, keystream: nat -> byte, position: nat, count: nat) {
    && |block| == BLOCK && count <= BLOCK && count <= position
    && forall i :: BLOCK - count <= i < BLOCK ==> block[i] == keystream(position - BLOCK + i)
  }

  lemma SavedAt(block: seq<byte>, keystream: nat -> byte, position: nat, count: nat, i: nat)
    requires Saved(block, keystream, position, count) && i < count
    ensures block[BLOCK - count + i] == keystream(position - count + i)
  {
    assert position - BLOCK + (BLOCK - count + i) == position - count + i;
  }

  lemma SavedAfter(data: seq<byte>, keystream: nat -> byte, pos: nat)
    requires |data| < BLOCK
    ensures var block := Xor(data + Zeros(BLOCK - |data|), keystream, pos);
            && Saved(block, keystream, pos + BLOCK, BLOCK - |data|) && block[..|data|] == Xor(data, keystream, pos)
  {
    hide Xor, Zeros;
    var n := BLOCK - |data|;
    var block := Xor(data + Zeros(n), keystream, pos);
    XorPadded(data, n, keystream, pos);
    forall i | |data| <= i < BLOCK
      ensures block[i] == keystream(pos + BLOCK - BLOCK + i)
    {
      assert block[i] == keystream(pos + i);
    }
  }

  class MirrorBuffer {
    const aes: AesCtr
    const og: array<byte>
    var nextDecryptCount: nat

    ghost predicate Valid()
      reads this, aes, og
    {
      && og.Length == BLOCK
      && aes.blockOffset == 0 && aes.position % BLOCK == 0
      && nextDecryptCount < BLOCK && nextDecryptCount <= aes.position
      && Saved(og[..], aes.keystream, aes.position, nextDecryptCount)
    }

    /** How many bytes have been decrypted so far. */
    ghost function Position(): nat
      requires Valid()
      reads this, aes, og
    {
      aes.position - nextDecryptCount
    }

    constructor (keystream: nat -> byte)
      ensures Valid() && Position() == 0 && fresh(aes) && fresh(og) && aes.keystream == keystream
    {
      aes := new AesCtr(keystream);
      og := new byte[BLOCK](_ => 0);
      nextDecryptCount := 0;
    }

    /** The head of a chunk, under the keystream saved from the block before. */
    method UseSaved(input: array<byte>, output: array<byte>)
      requires Valid() && nextDecryptCount <= input.Length && nextDecryptCount <= output.Length
      requires output != og && output != input
      modifies output
      ensures output[..nextDecryptCount] == Xor(input[..nextDecryptCount], aes.keystream, Position())
    {
      hide Xor, Saved;
      ghost var ks, pos, head := aes.keystream, Position(), input[..nextDecryptCount];
      for i := 0 to nextDecryptCount
        invariant forall j :: 0 <= j < i ==> output[..][j] == head[j] ^ ks(pos + j)
      {
        SavedAt(og[..], ks, aes.position, nextDecryptCount, i);
        output[i] := input[i] ^ og[(BLOCK - nextDecryptCount) + i];
      }
      XorIs(head, output[..nextDecryptCount], ks, pos);
    }

    /** The tail of a chunk, a part of a block: the rest of that block's keystream is saved. */
    method SaveRest(input: array<byte>, output: array<byte>, restStart: nat, restLen: nat)
      requires og.Length == BLOCK && aes.blockOffset == 0 && aes.position % BLOCK == 0
      requires 0 < restLen < BLOCK && restStart + restLen <= input.Length && restStart + restLen <= output.Length
      requires input != og && output != og && input != output
      modifies this, aes`position, og, output
      ensures Valid() && nextDecryptCount == BLOCK - restLen && aes.position == old(aes.position) + BLOCK
      ensures output[..restStart] == old(output[..restStart])
      ensures output[restStart..restStart + restLen] ==
              Xor(input[restStart..restStart + restLen], aes.keystream, old(aes.position))
    {
      hide Xor, Zeros, Saved;
      ghost var rest, ks, pos := input[restStart..restStart + restLen], aes.keystream, aes.position;
      LoadRest(input, restStart, restLen);
      DecryptBlock();
      ghost var plain := og[..];
      SavedAfter(rest, ks, pos);
      CopyOut(output, restStart, restLen);
      assert og[..] == plain;
      nextDecryptCount := BLOCK - restLen;
    }

    /** The part of a block, padded with zeros. */
    method LoadRest(input: array<byte>, restStart: nat, restLen: nat)
      requires og.Length == BLOCK && restLen < BLOCK && restStart + restLen <= input.Length && input != og
      modifies og
      ensures og[..] == input[restStart..restStart + restLen] + Zeros(BLOCK - restLen)
    {
      forall i | 0 <= i < BLOCK {
        og[i] := 0;
      }
      forall i | 0 <= i < restLen {
        og[i] := input[restStart + i];
      }
    }

    method DecryptBlock()
      requires og.Length == BLOCK
      modifies aes`position, og
      ensures aes.position == old(aes.position) + BLOCK && og[..] == Xor(old(og[..]), aes.keystream, old(aes.position))
    {
      hide Xor;
      assert og[0..BLOCK] == og[..];
      aes.Decrypt(og, 0, og, 0, BLOCK);
      assert og[0..BLOCK] == og[..];
    }

    method CopyOut(output: array<byte>, restStart: nat, restLen: nat)
      requires og.Length == BLOCK && restLen < BLOCK && restStart + restLen <= output.Length && output != og
      modifies output
      ensures output[..restStart] == old(output[..restStart])
      ensures output[restStart..restStart + restLen] == og[..][..restLen]
    {
      forall j | 0 <= j < restLen {
        output[restStart + j] := og[j];
      }
    }

    /** Decrypt a chunk. It comes out under the one keystream that runs through all chunks. */
    method Decrypt(input: array<byte>, output: array<byte>, inputLen: nat)
      requires Valid() && nextDecryptCount <= inputLen <= input.Length && inputLen <= output.Length
      requires input != og && output != og && input != output
      modifies this, aes, og, input, output
      ensures Valid() && Position() == old(Position()) + inputLen
      ensures output[..inputLen] == Xor(old(input[..inputLen]), aes.keystream, old(Position()))
    {
      hide Xor;
      ghost var data, ks, pos := input[..inputLen], aes.keystream, Position();
      var restLen := (inputLen - nextDecryptCount) % BLOCK;
      var restStart := DecryptFront(input, output, inputLen);
      ghost var front := output[..restStart];
      assert old(input[..restStart]) == data[..restStart];
      assert input[restStart..inputLen] == data[restStart..];
      nextDecryptCount := 0;
      if restLen > 0 {
        SaveRest(input, output, restStart, restLen);
      }
      assert restLen == 0 ==> output[restStart..inputLen] == Xor(data[restStart..], ks, pos + restStart);
      assert output[..inputLen] == front + output[restStart..inputLen];
      assert data == data[..restStart] + data[restStart..];
      XorConcat(data[..restStart], data[restStart..], ks, pos);
    }

    /** The saved keystream and the whole blocks; what remains is less than a block. */
    method DecryptFront(input: array<byte>, output: array<byte>, inputLen: nat) returns (restStart: nat)
      requires Valid() && nextDecryptCount <= inputLen <= input.Length && inputLen <= output.Length
      requires input != og && output != og && input != output
      modifies aes, input, output
      ensures restStart == inputLen - (inputLen - nextDecryptCount) % BLOCK && restStart >= nextDecryptCount
      ensures aes.blockOffset == 0 && aes.position % BLOCK == 0
      ensures aes.position == old(Position()) + restStart
      ensures output[..restStart] == Xor(old(input[..restStart]), aes.keystream, old(Position()))
      ensures input[restStart..] == old(input[restStart..])
    {
      hide Xor;
      ghost var data, ks, pos := input[..], aes.keystream, Position();
      var saved := nextDecryptCount;
      UseSaved(input, output);
      ghost var head := output[..saved];
      var encryptLen := ((inputLen - saved) / BLOCK) * BLOCK;
      restStart := saved + encryptLen;
      DecryptBlocks(input, output, saved, encryptLen);
      assert output[..restStart] == head + output[saved..restStart];
      assert data[..restStart] == data[..saved] + data[saved..restStart];
      XorConcat(data[..saved], data[saved..restStart], ks, pos);
    }

    /** The whole blocks of a chunk, decrypted in the input buffer and copied out. */
    method DecryptBlocks(input: array<byte>, output: array<byte>, start: nat, len: nat)
      requires aes.blockOffset == 0 && aes.position % BLOCK == 0 && len % BLOCK == 0
      requires start + len <= input.Length && start + len <= output.Length && input != output
      modifies aes, input, output
      ensures aes.blockOffset == 0 && aes.position % BLOCK == 0 && aes.position == old(aes.position) + len
      ensures output[start..start + len] == Xor(old(input[start..start + len]), aes.keystream, old(aes.position))
      ensures output[..start] == old(output[..start])
      ensures input[start + len..] == old(input[start + len..])
    {
      hide Xor;
      ghost var pos := aes.position;
      aes.StartFreshBlock();
      assert aes.position == pos;
      aes.Decrypt(input, start, input, start, len);
      CopyBlocks(input, output, start, len);
    }

    method CopyBlocks(input: array<byte>, output: array<byte>, start: nat, len: nat)
      requires start + len <= input.Length && start + len <= output.Length && input != output
      modifies output
      ensures output[start..start + len] == input[start..start + len] && output[..start] == old(output[..start])
    {
      forall i | start <= i < start + len {
        output[i] := input[i];
      }
    }
  }

  function Flatten(chunks: seq<seq<byte>>): seq<byte> {
    if chunks == [] then [] else Flatten(chunks[..|chunks| - 1]) + chunks[|chunks| - 1]
  }

  /** Every chunk is at least as long as the keystream carried over to it; 15 bytes are always enough. */
  predicate LongEnough(chunks: seq<seq<byte>>) {
    forall i :: 0 <= i < |chunks| ==> Carry(|Flatten(chunks[..i])|) <= |chunks[i]|
  }

  lemma FifteenIsEnough(chunks: seq<seq<byte>>)
    requires forall i :: 0 <= i < |chunks| ==> |chunks[i]| >= 15
    ensures LongEnough(chunks)
  {
    forall i | 0 <= i < |chunks|
      ensures Carry(|Flatten(chunks[..i])|) <= |chunks[i]|
    {
      CarryExactly(|Flatten(chunks[..i])|);
    }
  }

  lemma LongEnoughAt(chunks: seq<seq<byte>>, i: nat)
    requires LongEnough(chunks) && i < |chunks|
    ensures Carry(|Flatten(chunks[..i])|) <= |chunks[i]|
  {
  }

  lemma CarryIsSaved(pos: nat, saved: nat)
    requires saved < BLOCK && (pos + saved) % BLOCK == 0
    ensures saved == Carry(pos)
  {
  }

  method DecryptChunk(chunk: seq<byte>, m: MirrorBuffer) returns (out: seq<byte>)
    requires m.Valid() && Carry(m.Position()) <= |chunk|
    modifies m, m.aes, m.og
    ensures m.Valid() && m.Position() == old(m.Position()) + |chunk|
    ensures out == Xor(chunk, m.aes.keystream, old(m.Position()))
  {
    var input := new byte[|chunk|](j requires 0 <= j < |chunk| => chunk[j]);
    var output := new byte[|chunk|];
    CarryIsSaved(m.Position(), m.nextDecryptCount);
    assert input[..|chunk|] == chunk;
    m.Decrypt(input, output, |chunk|);
    out := output[..|chunk|];
  }

  lemma FlattenNext(chunks: seq<seq<byte>>, i: nat)
    requires i < |chunks|
    ensures Flatten(chunks[..i + 1]) == Flatten(chunks[..i]) + chunks[i]
  {
    assert chunks[..i + 1][..i] == chunks[..i];
  }

  lemma FlattenAppend(chunks: seq<seq<byte>>, chunk: seq<byte>)
    ensures Flatten(chunks + [chunk]) == Flatten(chunks) + chunk
  {
    assert (chunks + [chunk])[..|chunks|] == chunks;
  }

  ghost predicate SameLengths(a: seq<seq<byte>>, b: seq<seq<byte>>) {
    |a| == |b| && forall i :: 0 <= i < |a| ==> |a[i]| == |b[i]|
  }

  lemma SameLengthsNext(before: seq<seq<byte>>, outs: seq<seq<byte>>, chunks: seq<seq<byte>>, i: nat)
    requires i < |chunks| && SameLengths(before, chunks[..i])
    requires |outs| == i + 1 && outs[..i] == before && |outs[i]| == |chunks[i]|
    ensures SameLengths(outs, chunks[..i + 1])
  {
    forall k | 0 <= k < i
      ensures |outs[k]| == |chunks[k]|
    {
      assert outs[..i][k] == outs[k] && chunks[..i][k] == chunks[k];
    }
  }

  method DecryptNext(chunk: seq<byte>, m: MirrorBuffer, outs: seq<seq<byte>>, ghost done: seq<byte>)
    returns (outs': seq<seq<byte>>)
    requires m.Valid() && m.Position() == |done| && Carry(|done|) <= |chunk|
    requires Flatten(outs) == Xor(done, m.aes.keystream, 0)
    modifies m, m.aes, m.og
    ensures m.Valid() && m.Position() == |done + chunk|
    ensures Flatten(outs') == Xor(done + chunk, m.aes.keystream, 0)
    ensures |outs'| == |outs| + 1 && outs'[..|outs|] == outs && |outs'[|outs|]| == |chunk|
  {
    hide Xor, Flatten, Carry;
    var out := DecryptChunk(chunk, m);
    FlattenAppend(outs, out);
    XorConcat(done, chunk, m.aes.keystream, 0);
    outs' := outs + [out];
  }

  /** Decrypting chunk by chunk, however the stream is cut, is decrypting it in one go from position 0. */
  method DecryptAll(chunks: seq<seq<byte>>, m: MirrorBuffer) returns (outs: seq<seq<byte>>)
    requires m.Valid() && m.Position() == 0 && LongEnough(chunks)
    modifies m, m.aes, m.og
    ensures m.Valid() && m.Position() == |Flatten(chunks)|
    ensures Flatten(outs) == Xor(Flatten(chunks), m.aes.keystream, 0)
    ensures SameLengths(outs, chunks)
  {
    outs := [];
    ghost var done, ks := [], m.aes.keystream;
    for i := 0 to |chunks|
      invariant m.Valid() && m.Position() == |done|
      invariant done == Flatten(chunks[..i]) && Flatten(outs) == Xor(done, ks, 0)
      invariant |outs| == i && SameLengths(outs, chunks[..i])
    {
      LongEnoughAt(chunks, i);
      FlattenNext(chunks, i);
      hide Xor, Flatten, Carry, LongEnough, Saved, SameLengths;
      ghost var before := outs;
      outs := DecryptNext(chunks[i], m, outs, done);
      SameLengthsNext(before, outs, chunks, i);
      done := done + chunks[i];
    }
    assert chunks[..|chunks|] == chunks;
  }
}
