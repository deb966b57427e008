/**
 Encrypted messages: EncryptMessage at one peer and DecryptMessage at the other, over the bytes of a
 whole message.
 */
module SecureMsg {
  import opened Common
  import opened Octets
  import opened AesEngine
  import opened Ccm
  import opened CcmCode

  const MAC_LENGTH := 8
  const HDR_SIZE := 16
  const BODY_LEN_POS := 4

  /** MessageLen without the body: the fixed header and the fields, padded. */
  function HeaderEnd(headerLen: nat): nat {
    HDR_SIZE + (headerLen + 7) / 8 * 8
  }

  /** InitNonce: who sends, and the serial number. */
  function Nonce(role: bv8, serial: nat): (n: seq<bv8>)
    ensures |n| == 5
  {
    [role] + BigEndian4(serial)
  }

  /** Five octets: the role of the sender, and the serial number of the message, most significant octet first. */
  predicate NonceFor(role: bv8, serial: nat, n: seq<bv8>) {
    && |n| == 5 && n[0] == role
    && serial == Value(n[1]) * 0x100_0000 + Value(n[2]) * 0x1_0000 + Value(n[3]) * 0x100 + Value(n[4])
  }

  /** The nonce has the serial number in it, and is the only one that does. */
  lemma NonceIs(role: bv8, serial: nat, n: seq<bv8>)
    requires serial < 0x1_0000_0000
    ensures NonceFor(role, serial, n) <==> n == Nonce(role, serial)
  {
    NonceHas(role, serial);
    hide Octet, Value, Nonce;
    if NonceFor(role, serial, n) {
      SameNonce(role, serial, n, Nonce(role, serial));
    }
  }

  lemma NonceHas(role: bv8, serial: nat)
    requires serial < 0x1_0000_0000
    ensures NonceFor(role, serial, Nonce(role, serial))
  {
    hide Value, BigEndian4;
    FourOctets(serial);
  }

  lemma NonceHasIf(role: bv8, serial: nat)
    ensures serial < 0x1_0000_0000 ==> NonceFor(role, serial, Nonce(role, serial))
  {
    if serial < 0x1_0000_0000 {
      NonceHas(role, serial);
    }
  }

  lemma SameNonce(role: bv8, serial: nat, m: seq<bv8>, n: seq<bv8>)
    requires NonceFor(role, serial, m) && NonceFor(role, serial, n)
    ensures m == n
  {
    OctetRange(m);
    OctetRange(n);
    hide Value;
    SameFour(Value(m[1]), Value(m[2]), Value(m[3]), Value(m[4]), Value(n[1]), Value(n[2]), Value(n[3]), Value(n[4]));
    SameValue(m[1], n[1]);
    SameValue(m[2], n[2]);
    SameValue(m[3], n[3]);
    SameValue(m[4], n[4]);
  }

  lemma OctetRange(n: seq<bv8>)
    ensures forall i :: 0 <= i < |n| ==> 0 <= Value(n[i]) < 256
  {
  }

  lemma SameFour(a: nat, b: nat, c: nat, d: nat, e: nat, f: nat, g: nat, h: nat)
    requires a < 256 && b < 256 && c < 256 && d < 256 && e < 256 && f < 256 && g < 256 && h < 256
    requires a * 0x100_0000 + b * 0x1_0000 + c * 0x100 + d == e * 0x100_0000 + f * 0x1_0000 + g * 0x100 + h
    ensures a == e && b == f && c == g && d == h
  {
  }

  lemma FourOctets(n: nat)
    requires n < 0x1_0000_0000
    ensures var s := BigEndian4(n);
      n == Value(s[0]) * 0x100_0000 + Value(s[1]) * 0x1_0000 + Value(s[2]) * 0x100 + Value(s[3])
  {
    hide Octet, Value;
    OctetValue(n / 0x100_0000 % 256);
    OctetValue(n / 0x1_0000 % 256);
    OctetValue(n / 0x100 % 256);
    OctetValue(n % 256);
    Quotient(n, n / 0x100);
    Quotient(n / 0x100, n / 0x1_0000);
    Quotient(n / 0x1_0000, n / 0x100_0000);
  }

  /** No two messages of the peers of a session are encrypted under one nonce. */
  lemma NoncesDiffer(role: bv8, serial: nat, role': bv8, serial': nat)
    requires serial < 0x1_0000_0000 && serial' < 0x1_0000_0000
    ensures Nonce(role, serial) == Nonce(role', serial') ==> role == role' && serial == serial'
  {
    NonceIs(role, serial, Nonce(role, serial));
    NonceIs(role', serial', Nonce(role', serial'));
  }

  /** A header's body length, in the host's (little-endian) byte order. */
  function BodyLenField(n: nat): (s: seq<bv8>)
    ensures |s| == 4
  {
    [Octet(n % 256), Octet(n / 0x100 % 256), Octet(n / 0x1_0000 % 256), Octet(n / 0x100_0000 % 256)]
  }

  /** The message as it is sealed: its header already counts the MAC. */
  function Announced(m: seq<bv8>, bodyLen: nat): (r: seq<bv8>)
    requires |m| >= HDR_SIZE
    ensures |r| == |m|
  {
    m[..BODY_LEN_POS] + BodyLenField(bodyLen) + m[BODY_LEN_POS + 4..]
  }

  /** What EncryptMessage makes of the message `m`. */
  function SealedMessage(key: Block, role: bv8, serial: nat, headerEnd: nat, m: seq<bv8>): (r: seq<bv8>)
    requires HDR_SIZE <= headerEnd <= |m| < 0x7FFF_0000
    ensures |r| == |m| + MAC_LENGTH
  {
    SealedWith(key, Nonce(role, serial), headerEnd, m)
  }

  /** The message `m`, sealed under the nonce `n`. */
  function SealedWith(key: Block, n: seq<bv8>, headerEnd: nat, m: seq<bv8>): (r: seq<bv8>)
    requires HDR_SIZE <= headerEnd <= |m| < 0x7FFF_0000 && |n| == 5
    ensures |r| == |m| + MAC_LENGTH
  {
    var a := Announced(m, |m| - headerEnd + MAC_LENGTH);
    Sealed(Aes128(key), n, a[..headerEnd], a[headerEnd..], MAC_LENGTH)
  }

  /** Within the bounds of the format, that is CCM of RFC 3610 with the nonce filled up and a tag of 8 octets. */
  lemma SealedMessageIsRfc(key: Block, role: bv8, serial: nat, headerEnd: nat, m: seq<bv8>, n: seq<bv8>)
    requires NonceFor(role, serial, n) && serial < 0x1_0000_0000
    requires 16 <= headerEnd <= |m| <= headerEnd + 16 * 511 && headerEnd < 0xFF00
    ensures SealedMessage(key, role, serial, headerEnd, m)
      == (var a := Announced(m, |m| - headerEnd + 8);
          RfcSealed(Aes128(key), n + [0, 0, 0, 0, 0, 0], a[..headerEnd], a[headerEnd..], 8))
  {
    hide NonceFor, Nonce, Announced, Sealed, RfcSealed, Aes128;
    NonceIs(role, serial, n);
    var a := Announced(m, |m| - headerEnd + 8);
    assert FullNonce(n) == n + [0, 0, 0, 0, 0, 0];
    SealedIsRfc(Aes128(key), n, a[..headerEnd], a[headerEnd..], 8);
  }

  /** EncryptMessage; `key` is what the look-up of the session or group key finds. */
  method EncryptMessage(engine: Engine, buf: array<bv8>, writePos: nat, headerLen: nat, bodyLen: nat, serial: nat,
                        key: Option<Block>, role: bv8)
    returns (status: Status, newWritePos: nat, newBodyLen: nat)
    requires engine.fkey.Length == MAX_SCHEDULE_LEN
    requires HeaderEnd(headerLen) + bodyLen == writePos <= buf.Length < 0x7FFF_0000
    modifies buf, engine.fkey
    ensures status == if buf.Length - writePos < 8 then ErrResources else if key.None? then ErrSecurity else OK
    ensures status == OK ==> newWritePos == writePos + 8 <= buf.Length && newBodyLen == bodyLen + 8
    ensures status == OK ==>
      buf[..newWritePos] == SealedMessage(key.value, role, serial, HeaderEnd(headerLen), old(buf[..writePos]))
    ensures status == OK && serial < 0x1_0000_0000 ==>
      exists n :: NonceFor(role, serial, n)
        && buf[..newWritePos] == SealedWith(key.value, n, HeaderEnd(headerLen), old(buf[..writePos]))
  {
    NonceHasIf(role, serial);
    hide NonceFor, Nonce, Sealed, CipherBlock, BigEndian4, BodyLenField, Patched;
    newWritePos, newBodyLen := writePos, bodyLen;
    if buf.Length - writePos < MAC_LENGTH {
      return ErrResources, newWritePos, newBodyLen;
    }
    ghost var m := buf[..];
    newBodyLen := newBodyLen + MAC_LENGTH;
    var field := BodyLenField(newBodyLen);
    buf[4], buf[5], buf[6], buf[7] := field[0], field[1], field[2], field[3];
    newWritePos := newWritePos + MAC_LENGTH;
    ghost var m1 := buf[..];
    if key.None? {
      return ErrSecurity, newWritePos, newBodyLen;
    }
    var hlen := HeaderEnd(headerLen);
    InFront(m, m1, field, hlen, writePos);
    status := EncryptCcm(engine, key.value, buf, hlen + bodyLen, hlen, MAC_LENGTH, Nonce(role, serial));
    PatchedFront(m1, buf[..], SealedMessage(key.value, role, serial, hlen, m[..writePos]));
  }

  lemma InFront(m: seq<bv8>, m1: seq<bv8>, field: seq<bv8>, hlen: nat, n: nat)
    requires HDR_SIZE <= hlen <= n <= |m| && field == BodyLenField(n - hlen + MAC_LENGTH)
    requires m1 == m[..4] + field + m[8..]
    ensures var a := Announced(m[..n], n - hlen + MAC_LENGTH); m1[..hlen] == a[..hlen] && m1[hlen..n] == a[hlen..]
  {
    hide BodyLenField;
    assert Announced(m[..n], n - hlen + MAC_LENGTH) == m1[..n];
  }

  /** The opening of a message whose header ends at `headerEnd`. */
  function OpenedMessage(key: Block, nonce: seq<bv8>, headerEnd: nat, b: seq<bv8>): (r: (bool, seq<bv8>))
    requires |nonce| == 5 && headerEnd + MAC_LENGTH <= |b| < 0x7FFF_0000
    ensures |r.1| == |b|
  {
    var n := |b| - MAC_LENGTH;
    Opened(Aes128(key), nonce, b[..headerEnd], b[headerEnd..n], b[n..])
  }

  /** The role a peer uses to decrypt: the other one, unless the key is the group's. */
  function DecryptRole(group: bool, role: bv8): bv8 {
    if group then role else role ^ 3
  }

  /** Who started the session encrypts with 1 and decrypts with 2, the other the other way round. */
  lemma RolesMeet(role: bv8)
    ensures DecryptRole(true, role) == role && DecryptRole(false, 1) == 2 && DecryptRole(false, 2) == 1
    ensures DecryptRole(false, role) == role ^ 3
  {
  }

  /** DecryptMessage; the MAC is counted in `bodyLen`. */
  method DecryptMessage(engine: Engine, buf: array<bv8>, headerLen: nat, bodyLen: nat, serial: nat, key: Option<Block>,
                        group: bool, role: bv8)
    returns (status: Status)
    requires engine.fkey.Length == MAX_SCHEDULE_LEN
    requires HeaderEnd(headerLen) + bodyLen <= buf.Length < 0x7FFF_0000 && bodyLen >= MAC_LENGTH
    modifies buf, engine.fkey
    ensures key.None? ==> status == ErrSecurity && buf[..] == old(buf[..])
    ensures key.Some? ==>
              (var r := OpenedMessage(key.value, Nonce(DecryptRole(group, role), serial), HeaderEnd(headerLen),
                 old(buf[..HeaderEnd(headerLen) + bodyLen]));
               status == (if r.0 then OK else ErrSecurity) && Patched(old(buf[..]), buf[..], 0, r.1))
    ensures key.Some? && serial < 0x1_0000_0000 ==>
      exists n :: NonceFor(DecryptRole(group, role), serial, n)
        && (status == OK <==>
              OpenedMessage(key.value, n, HeaderEnd(headerLen), old(buf[..HeaderEnd(headerLen) + bodyLen])).0)
  {
    NonceHasIf(DecryptRole(group, role), serial);
    hide NonceFor, Opened, Patched, CipherBlock, Nonce, HeaderEnd;
    if key.None? {
      return ErrSecurity;
    }
    var hlen := HeaderEnd(headerLen);
    ghost var b := buf[..];
    ThreeParts(b, hlen, hlen + bodyLen - MAC_LENGTH, hlen + bodyLen);
    status :=
      DecryptCcm(engine, key.value, buf, hlen + bodyLen - MAC_LENGTH, hlen, MAC_LENGTH,
      Nonce(DecryptRole(group, role), serial));
  }

  /**
   A message encrypted by one peer and decrypted by the other comes out as it was, but for a body
   length that counts the MAC, if the keys agree and the roles do: opposite for a session key.
   */
  method Exchange(sender: Engine, receiver: Engine, tx: array<bv8>, rx: array<bv8>, headerLen: nat, bodyLen: nat,
                  serial: nat, key: Block, group: bool, role: bv8, peerRole: bv8)
    returns (sent: Status, received: Status)
    requires sender.fkey.Length == receiver.fkey.Length == MAX_SCHEDULE_LEN && tx != rx
    requires
      && HeaderEnd(headerLen) + bodyLen <= tx.Length < 0x7FFF_0000
      && HeaderEnd(headerLen) + bodyLen + MAC_LENGTH <= rx.Length < 0x7FFF_0000
    requires role == if group then peerRole else peerRole ^ 3
    modifies tx, rx, sender.fkey, receiver.fkey
    ensures sent == if tx.Length < HeaderEnd(headerLen) + bodyLen + MAC_LENGTH then ErrResources else OK
    ensures sent == OK ==> received == OK
    ensures sent == OK ==>
              rx[..HeaderEnd(headerLen) + bodyLen]
                == Announced(old(tx[..HeaderEnd(headerLen) + bodyLen]), bodyLen + MAC_LENGTH)
  {
    hide Sealed, Opened, CipherBlock, Announced, Patched, Tag, HeaderEnd, Nonce;
    received := OK;
    EndBound(headerLen);
    ghost var hlen, n := HeaderEnd(headerLen), HeaderEnd(headerLen) + bodyLen;
    ghost var a := Announced(tx[..n], bodyLen + MAC_LENGTH);
    var writePos, newBodyLen;
    sent, writePos,
      newBodyLen :=
      EncryptMessage(sender, tx, HeaderEnd(headerLen) + bodyLen, headerLen, bodyLen, serial, Some(key), role);
    if sent == OK {
      Transfer(tx, rx, writePos);
      ghost var m := rx[..];
      ThreeParts(m, hlen, n, writePos);
      OpenedSealed(Aes128(key), Nonce(role, serial), a[..hlen], a[hlen..], MAC_LENGTH);
      received := DecryptMessage(receiver, rx, headerLen, newBodyLen, serial, Some(key), group, peerRole);
      Front(m, rx[..], a[..hlen], a[hlen..],
        Tag(Aes128(key), Nonce(role, serial), a[..hlen], a[hlen..], MAC_LENGTH)[..MAC_LENGTH]);
      Halves(rx[..], a, hlen, n);
    }
  }

  lemma EndBound(headerLen: nat)
    ensures HeaderEnd(headerLen) >= HDR_SIZE
  {
  }

  lemma ThreeParts(m: seq<bv8>, a: nat, b: nat, c: nat)
    requires a <= b <= c <= |m|
    ensures m[..c][..a] == m[..a] && m[..c][a..b] == m[a..b] && m[..c][b..] == m[b..c]
  {
    SubSlice(m, 0, c, 0, a);
    SubSlice(m, 0, c, a, b);
    SubSlice(m, 0, c, b, c);
  }

  lemma Halves(m: seq<bv8>, a: seq<bv8>, i: nat, n: nat)
    requires i <= n == |a| <= |m| && m[..i] == a[..i] && m[i..n] == a[i..]
    ensures m[..n] == a
  {
    assert m[..n] == m[..i] + m[i..n] && a == a[..i] + a[i..];
  }

  /** What one peer sends the other receives. */
  method Transfer(tx: array<bv8>, rx: array<bv8>, n: nat)
    requires n <= tx.Length && n <= rx.Length && tx != rx
    modifies rx
    ensures rx[..n] == tx[..n]
  {
    forall i | 0 <= i < n {
      rx[i] := tx[i];
    }
  }
}
