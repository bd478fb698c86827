/**
  The encrypted media packet (wsh264/src/crypto_stream.c).

  ChaCha20 itself is not part of this model: a `Keystream` gives the byte it produces, under the
  program's fixed key and initial block counter, at each index for a packet nonce. Everything below
  holds for every keystream.
 */
module CryptoStream {
  import opened Bytes

  const MAGIC0: byte := 0x43 // 'C'
  const MAGIC1: byte := 0x48 // 'H'
  const VERSION: byte := 1
  const HEADER_SIZE: nat := 8
  const NONCE_SIZE: nat := 12

  type Nonce = n: seq<byte> | |n| == NONCE_SIZE witness [0, 0, 0, 0, 0, 0, 0, 0, 0, 0, 0, 0]
  type Keystream = (Nonce, nat) -> byte

  datatype Plain = Plain(streamId: byte, seqNo: u32, data: seq<byte>)

  /** The session nonce with its last little-endian word advanced by the sequence number, modulo 2^32. */
  function PacketNonce(sessionNonce: Nonce, seqNo: u32): Nonce {
    sessionNonce[..8] + Le32((ReadLe32(sessionNonce[8..]) as int + seqNo as int) % TWO_TO_32)
  }

  function PacketSize(plaintextLen: nat): nat {
    HEADER_SIZE + plaintextLen
  }

  function Crypt(ks: Keystream, nonce: Nonce, data: seq<byte>): (r: seq<byte>)
    ensures |r| == |data|
  {
    seq<byte>(|data|, i requires 0 <= i < |data| => Xor(data[i], ks(nonce, i)))
  }

  function PacketHeader(streamId: byte, seqNo: u32): (b: seq<byte>)
    ensures |b| == HEADER_SIZE
  {
    [MAGIC0, MAGIC1, VERSION, streamId] + Be32(seqNo)
  }

  function Encrypt(ks: Keystream, sessionNonce: Nonce, p: Plain): (packet: seq<byte>)
    ensures |packet| == PacketSize(|p.data|)
  {
    PacketHeader(p.streamId, p.seqNo) + Crypt(ks, PacketNonce(sessionNonce, p.seqNo), p.data)
  }

  function Decrypt(ks: Keystream, sessionNonce: Nonce, packet: seq<byte>): Option<Plain> {
    if |packet| < HEADER_SIZE || packet[0] != MAGIC0 || packet[1] != MAGIC1 || packet[2] != VERSION then None
    else
      var seqNo := ReadBe32(packet[4..]);
      Some(Plain(packet[3], seqNo, Crypt(ks, PacketNonce(sessionNonce, seqNo), packet[HEADER_SIZE..])))
  }

  /** Each byte has the bits of its keystream byte flipped. */
  lemma {:induction false} CryptFlips(ks: Keystream, nonce: Nonce, data: seq<byte>)
    ensures forall i | 0 <= i < |data| :: Differing(Crypt(ks, nonce, data)[i], data[i], ks(nonce, i))
  {
    forall i | 0 <= i < |data|
      ensures Differing(Crypt(ks, nonce, data)[i], data[i], ks(nonce, i))
    {
      XorExactly(Crypt(ks, nonce, data)[i], data[i], ks(nonce, i));
    }
  }

  lemma {:induction false} CryptTwice(ks: Keystream, nonce: Nonce, data: seq<byte>)
    ensures Crypt(ks, nonce, Crypt(ks, nonce, data)) == data
  {
    forall i | 0 <= i < |data|
      ensures Crypt(ks, nonce, Crypt(ks, nonce, data))[i] == data[i]
    {
      XorTwice(data[i], ks(nonce, i));
    }
  }

  /** Where the fields of a packet stand. */
  lemma {:induction false} PacketLayout(ks: Keystream, sessionNonce: Nonce, p: Plain)
    ensures var b := Encrypt(ks, sessionNonce, p);
            && b[..3] == [0x43, 0x48, 1] // "CH" and the version
            && b[3] == p.streamId && ReadBe32(b[4..]) == p.seqNo
            && b[8..] == Crypt(ks, PacketNonce(sessionNonce, p.seqNo), p.data)
  {
    var b := Encrypt(ks, sessionNonce, p);
    assert b[4..] == Be32(p.seqNo) + b[8..];
    Be32ThenRead(p.seqNo, b[8..]);
  }

  /** Decryption under the same session nonce gives back stream, sequence number and every byte. */
  lemma {:induction false} DecryptEncrypt(ks: Keystream, sessionNonce: Nonce, p: Plain)
    ensures Decrypt(ks, sessionNonce, Encrypt(ks, sessionNonce, p)) == Some(p)
  {
    var packet := Encrypt(ks, sessionNonce, p);
    assert packet[4..] == Be32(p.seqNo) + packet[8..];
    Be32ThenRead(p.seqNo, packet[8..]);
    assert packet[HEADER_SIZE..] == Crypt(ks, PacketNonce(sessionNonce, p.seqNo), p.data);
    CryptTwice(ks, PacketNonce(sessionNonce, p.seqNo), p.data);
  }

  /** Whatever decrypts is the encryption of what came out: no other packet has that plaintext. */
  lemma {:induction false} EncryptDecrypt(ks: Keystream, sessionNonce: Nonce, packet: seq<byte>)
    requires Decrypt(ks, sessionNonce, packet).Some?
    ensures Encrypt(ks, sessionNonce, Decrypt(ks, sessionNonce, packet).value) == packet
  {
    var p := Decrypt(ks, sessionNonce, packet).value;
    CryptTwice(ks, PacketNonce(sessionNonce, p.seqNo), packet[HEADER_SIZE..]);
    ReadThenBe32(packet[4..]);
    assert packet[4..][..4] == packet[4..8];
    assert PacketHeader(p.streamId, p.seqNo) == packet[..8];
    assert packet == packet[..8] + packet[8..];
  }

  lemma AddModInjective(base: u32, a: u32, b: u32)
    requires (base as int + a as int) % TWO_TO_32 == (base as int + b as int) % TWO_TO_32
    ensures a == b
  {}

  /**
    Two packets of any two sessions share a nonce exactly when the session nonces agree in their first eight
    bytes and their last words, each advanced by its sequence number, agree modulo 2^32.
   */
  lemma {:induction false} PacketNoncesEqual(n: Nonce, a: u32, m: Nonce, b: u32)
    ensures PacketNonce(n, a) == PacketNonce(m, b) <==>
            && n[..8] == m[..8]
            && (ReadLe32(n[8..]) as int + a as int) % TWO_TO_32 == (ReadLe32(m[8..]) as int + b as int) % TWO_TO_32
  {
    hide Le32, ReadLe32;
    var v: u32 := (ReadLe32(n[8..]) as int + a as int) % TWO_TO_32;
    var w: u32 := (ReadLe32(m[8..]) as int + b as int) % TWO_TO_32;
    var x, y := PacketNonce(n, a), PacketNonce(m, b);
    Le32ThenRead(v, []);
    Le32ThenRead(w, []);
    assert Le32(v) + [] == Le32(v) && Le32(w) + [] == Le32(w);
    assert x[..8] == n[..8] && x[8..] == Le32(v) && y[..8] == m[..8] && y[8..] == Le32(w);
  }

  /** Within one session, two packets share a nonce exactly when they share a sequence number. */
  lemma {:induction false} PacketNonceInjective(sessionNonce: Nonce, a: u32, b: u32)
    ensures PacketNonce(sessionNonce, a) == PacketNonce(sessionNonce, b) <==> a == b
  {
    hide PacketNonce, ReadLe32;
    PacketNoncesEqual(sessionNonce, a, sessionNonce, b);
    if PacketNonce(sessionNonce, a) == PacketNonce(sessionNonce, b) {
      AddModInjective(ReadLe32(sessionNonce[8..]), a, b);
    }
  }

  /** And two sessions share the nonce of a sequence number exactly when they share the session nonce. */
  lemma {:induction false} SessionNonceUsed(n: Nonce, m: Nonce, seqNo: u32)
    ensures PacketNonce(n, seqNo) == PacketNonce(m, seqNo) <==> n == m
  {
    hide PacketNonce, ReadLe32;
    PacketNoncesEqual(n, seqNo, m, seqNo);
    if PacketNonce(n, seqNo) == PacketNonce(m, seqNo) {
      AddModInjective(seqNo, ReadLe32(n[8..]), ReadLe32(m[8..]));
      ReadThenLe32(n[8..]);
      ReadThenLe32(m[8..]);
      SplitAt(n, 8);
      SplitAt(m, 8);
    }
  }

  // The program's form: packets and plaintexts are written into a caller's buffer

  lemma {:induction false} PacketFlips(ks: Keystream, sessionNonce: Nonce, p: Plain, out: seq<byte>)
    requires |out| >= PacketSize(|p.data|) && out[..PacketSize(|p.data|)] == Encrypt(ks, sessionNonce, p)
    ensures forall i | 0 <= i < |p.data| ::
              Differing(out[HEADER_SIZE + i], p.data[i], ks(PacketNonce(sessionNonce, p.seqNo), i))
  {
    hide PacketNonce, Differing;
    CryptFlips(ks, PacketNonce(sessionNonce, p.seqNo), p.data);
    var b := Encrypt(ks, sessionNonce, p);
    forall i | 0 <= i < |p.data|
      ensures Differing(out[HEADER_SIZE + i], p.data[i], ks(PacketNonce(sessionNonce, p.seqNo), i))
    {
      assert out[HEADER_SIZE + i] == b[HEADER_SIZE + i];
    }
  }

  method EncryptPacket(ks: Keystream, out: array<byte>, p: Plain, sessionNonce: Nonce) returns (rc: int)
    modifies out
    ensures out.Length < PacketSize(|p.data|) ==> rc == -1 && out[..] == old(out[..])
    ensures out.Length >= PacketSize(|p.data|) ==>
              && rc == ToInt32(PacketSize(|p.data|))
              && out[..] == Encrypt(ks, sessionNonce, p) + old(out[PacketSize(|p.data|)..])
              && forall i | 0 <= i < |p.data| ::
                   Differing(out[HEADER_SIZE + i], p.data[i], ks(PacketNonce(sessionNonce, p.seqNo), i))
  {
    if out.Length < PacketSize(|p.data|) {
      return -1;
    }
    out[0] := MAGIC0;
    out[1] := MAGIC1;
    out[2] := VERSION;
    out[3] := p.streamId;
    CopyInto(out, 4, Be32(p.seqNo));
    assert out[..8] == PacketHeader(p.streamId, p.seqNo);
    label header:
    CopyInto(out, HEADER_SIZE, Crypt(ks, PacketNonce(sessionNonce, p.seqNo), p.data));
    assert out[..8] == old@header(out[..8]);
    assert out[..] == Encrypt(ks, sessionNonce, p) + old(out[PacketSize(|p.data|)..]);
    PacketFlips(ks, sessionNonce, p, out[..]);
    return ToInt32(PacketSize(|p.data|));
  }

  method DecryptPacket(ks: Keystream, out: array<byte>, sessionNonce: Nonce, packet: seq<byte>)
    returns (rc: int, streamId: byte, seqNo: u32)
    modifies out
    ensures Decrypt(ks, sessionNonce, packet).None? || out.Length < |packet| - HEADER_SIZE ==>
              rc == -1 && out[..] == old(out[..])
    ensures Decrypt(ks, sessionNonce, packet).Some? && out.Length >= |packet| - HEADER_SIZE ==>
              && rc == ToInt32(|packet| - HEADER_SIZE)
              && out[..] == Decrypt(ks, sessionNonce, packet).value.data + old(out[|packet| - HEADER_SIZE..])
              && streamId == Decrypt(ks, sessionNonce, packet).value.streamId
              && seqNo == Decrypt(ks, sessionNonce, packet).value.seqNo
  {
    rc, streamId, seqNo := -1, 0, 0;
    if |packet| < HEADER_SIZE {
      return;
    }
    if packet[0] != MAGIC0 || packet[1] != MAGIC1 {
      return;
    }
    if packet[2] != VERSION {
      return;
    }
    var ciphertextLen := |packet| - HEADER_SIZE;
    if out.Length < ciphertextLen {
      return;
    }
    seqNo := ReadBe32(packet[4..]);
    streamId := packet[3];
    CopyInto(out, 0, Crypt(ks, PacketNonce(sessionNonce, seqNo), packet[HEADER_SIZE..]));
    rc := ToInt32(ciphertextLen);
  }
}
