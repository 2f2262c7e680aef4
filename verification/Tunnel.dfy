/** What comes out of the enciphered link: the cipher of src/encrypt.c meeting C-string framing. */
module Tunnel {
  import opened Bytes
  import opened Bits
  import opened Cipher
  import opened CStrings
  import opened Packet

  /** Payload byte `i` sits at packet offset 46 + i; its ciphertext is NUL when it equals its key byte. */
  predicate Collides(payload: seq<byte>, i: nat)
    requires i < |payload|
  {
    payload[i] == KeyByte(46 + i)
  }

  ghost predicate CollisionFree(payload: seq<byte>) {
    forall i :: 0 <= i < |payload| ==> !Collides(payload, i)
  }

  /** The index of the first collision at or after `from`, or the length of the payload. */
  function FirstCollision(payload: seq<byte>, from: nat := 0): (c: nat)
    requires from <= |payload|
    ensures from <= c <= |payload|
    ensures forall i :: from <= i < c ==> !Collides(payload, i)
    ensures c < |payload| ==> Collides(payload, c)
    decreases |payload| - from
  {
    if from == |payload| || Collides(payload, from) then from else FirstCollision(payload, from + 1)
  }

  /** How many payload characters survive when `n` bytes of the packet are delivered. */
  function Surviving(payload: seq<byte>, n: nat): (k: nat)
    ensures k <= |payload|
  {
    if n <= 46 then 0
    else if n - 46 < FirstCollision(payload) then n - 46
    else FirstCollision(payload)
  }

  /** The packet `serv_rec_from_cli` produces when the first `n` bytes of the sealed packet `p` arrive:
      the original bytes as far as they arrived, key bytes after that, and a terminator. */
  function ThroughTunnel(p: seq<byte>, payload: cstring, n: nat): (r: seq<byte>)
    requires |p| == PACKET
    ensures |r| == PACKET
  {
    seq(PACKET, i requires 0 <= i < PACKET =>
      if i == 46 + Surviving(payload, n) then 0
      else if i < n && i != 46 + |payload| then p[i]
      else KeyByte(i))
  }

  predicate Carries(p: seq<byte>, payload: cstring) {
    && |p| == PACKET
    && |payload| < MAX_PAYLOAD
    && p[46..46 + |payload|] == payload
  }

  /** The receiver's buffer, byte by byte. */
  lemma ReceivedBytes(p: seq<byte>, payload: cstring, n: nat)
    requires Carries(p, payload) && n <= PACKET
    ensures var buf := Padded(Sealed(p, |payload|)[..n], PACKET);
            forall i :: 0 <= i < PACKET ==>
              buf[i] == if i < n && i != 46 + |payload| then XorByte(p[i], KeyByte(i)) else 0
  {
    hide XorByte, KeyByte;
  }

  /** `strlen` on the ciphertext stops inside the buffer, at exactly the surviving length. */
  lemma FramingSafety(p: seq<byte>, payload: cstring, n: nat)
    requires Carries(p, payload) && n <= PACKET
    ensures StrLen(Padded(Sealed(p, |payload|)[..n], PACKET)[46..]) == Surviving(payload, n) < MAX_PAYLOAD
  {
    hide XorByte, KeyByte, StrLen, Sealed, Padded;
    var buf := Padded(Sealed(p, |payload|)[..n], PACKET);
    var k := Surviving(payload, n);
    ReceivedBytes(p, payload, n);
    ghost var text := p[46..46 + |payload|];
    assert forall i :: 0 <= i < |payload| ==> text[i] == p[46 + i];
    forall i | 0 <= i < k
      ensures buf[46..][i] != 0
    {
      assert !Collides(payload, i);
      CipherByteIsNul(p[46 + i], KeyByte(46 + i));
    }
    if k < |payload| && 46 + k < n {
      assert Collides(payload, k);
      CipherByteIsNul(p[46 + k], KeyByte(46 + k));
    }
    StrLenIs(buf[46..], k);
  }

  lemma XorOfZero(k: byte)
    ensures XorByte(0, k) == k
  {
    hide XorByte;
    CipherByteIsNul(k, k);
    CipherByteUndone(k, k);
  }

  /** The tunnel, exactly: for every packet, payload and number of delivered bytes. */
  lemma TunnelExactly(p: seq<byte>, payload: cstring, n: nat)
    requires Carries(p, payload) && n <= PACKET
    ensures Opened(Sealed(p, |payload|)[..n]) == ThroughTunnel(p, payload, n)
  {
    FramingSafety(p, payload, n);
    ReceivedBytes(p, payload, n);
    hide XorByte, KeyByte, StrLen, Sealed, Padded, Surviving;
    var link := Sealed(p, |payload|)[..n];
    var buf := Padded(link, PACKET);
    forall i | 0 <= i < PACKET
      ensures Opened(link)[i] == ThroughTunnel(p, payload, n)[i]
    {
      CipherByteUndone(p[i], KeyByte(i));
      XorOfZero(KeyByte(i));
    }
  }

  /** `serv_cli_encrypt_free` sends a prefix of what `create_packets` would have sent. */
  lemma SameCiphertext(p: seq<byte>, payload: cstring, n: nat)
    requires Carries(p, payload) && n <= 46 + |payload|
    ensures Crypt(p[..46 + |payload|])[..n] == Sealed(p, |payload|)[..n]
  {
    hide Crypt;
    CryptOfPrefix(p, 46 + |payload|);
    assert Sealed(p, |payload|)[..n] == Crypt(p)[..n];
  }

  /** Once 46 bytes arrive all header bytes are recovered, and the payload string is the original
      cut at the first collision or at the last byte delivered. */
  lemma TunnelDelivers(p: seq<byte>, payload: cstring, n: nat)
    requires Carries(p, payload) && n <= PACKET
    ensures forall i :: 0 <= i < 46 && i < n ==> ThroughTunnel(p, payload, n)[i] == p[i]
    ensures CStr(ThroughTunnel(p, payload, n)[46..]) == payload[..Surviving(payload, n)]
  {
    hide KeyByte, StrLen, Surviving;
    var r := ThroughTunnel(p, payload, n);
    var k := Surviving(payload, n);
    SurvivingArrived(payload, n);
    ghost var text := p[46..46 + |payload|];
    assert forall i :: 0 <= i < |payload| ==> text[i] == p[46 + i];
    forall i | 0 <= i < k
      ensures r[46..][i] == payload[i]
    {
      assert r[46 + i] == p[46 + i];
    }
    StrLenIs(r[46..], k);
    assert r[46..][..k] == payload[..k];
  }

  lemma SurvivingArrived(payload: seq<byte>, n: nat)
    ensures Surviving(payload, n) > 0 ==> 46 + Surviving(payload, n) <= n
  {
  }

  /** The payload survives whole exactly when all of it arrives and no byte collides. */
  lemma LosslessIff(p: seq<byte>, payload: cstring, n: nat)
    requires Carries(p, payload) && n <= PACKET
    ensures CStr(ThroughTunnel(p, payload, n)[46..]) == payload
            <==> payload == [] || (n >= 46 + |payload| && CollisionFree(payload))
  {
    hide KeyByte, StrLen, ThroughTunnel;
    TunnelDelivers(p, payload, n);
    var c := FirstCollision(payload);
    assert c < |payload| ==> Collides(payload, c);
    assert payload[..|payload|] == payload;
  }

  // ----- addresses

  /** The address field at `at`, holding `addr`, as read after `n` bytes arrive through the tunnel: key
      bytes stand where nothing has arrived. */
  function ReadAddress(addr: uint32, at: nat, n: nat): uint32 {
    var h := HostOrder(addr);
    Join32(if at < n then h[0] else KeyByte(at), if at + 1 < n then h[1] else KeyByte(at + 1),
           if at + 2 < n then h[2] else KeyByte(at + 2), if at + 3 < n then h[3] else KeyByte(at + 3))
  }

  /** Every address byte that has not arrived happens to be the key byte at its place. */
  predicate ReadsRight(addr: uint32, at: nat, n: nat) {
    forall i :: 0 <= i < 4 && n <= at + i ==> HostOrder(addr)[i] == KeyByte(at + i)
  }

  /** That is exactly when the field is read as it was sent. */
  lemma ReadsRightIff(addr: uint32, at: nat, n: nat)
    ensures ReadAddress(addr, at, n) == addr <==> ReadsRight(addr, at, n)
    ensures n >= at + 4 ==> ReadsRight(addr, at, n)
  {
    hide HostOrder, KeyByte;
    var h := HostOrder(addr);
    JoinOfHostOrder(addr);
    var b0, b1 := if at < n then h[0] else KeyByte(at), if at + 1 < n then h[1] else KeyByte(at + 1);
    var b2, b3 := if at + 2 < n then h[2] else KeyByte(at + 2), if at + 3 < n then h[3] else KeyByte(at + 3);
    JoinIsInjective(h[0], h[1], h[2], h[3], b0, b1, b2, b3);
    if ReadsRight(addr, at, n) {
      assert n <= at ==> h[0] == KeyByte(at + 0);
      assert n <= at + 1 ==> h[1] == KeyByte(at + 1);
      assert n <= at + 2 ==> h[2] == KeyByte(at + 2);
      assert n <= at + 3 ==> h[3] == KeyByte(at + 3);
    }
  }

  lemma JoinOfHostOrder(addr: uint32)
    ensures var h := HostOrder(addr); Join32(h[0], h[1], h[2], h[3]) == addr
  {
    Digits32Join(addr);
  }

  lemma JoinIsInjective(a0: byte, a1: byte, a2: byte, a3: byte, b0: byte, b1: byte, b2: byte, b3: byte)
    ensures Join32(a0, a1, a2, a3) == Join32(b0, b1, b2, b3) <==> a0 == b0 && a1 == b1 && a2 == b2 && a3 == b3
  {
    Digits32(Join32(a0, a1, a2, a3), a0, a1, a2, a3);
    Digits32(Join32(b0, b1, b2, b3), b0, b1, b2, b3);
  }

  /** What the receiver reads from an address field of a packet, for every number of bytes delivered. */
  lemma TunnelReadsAddress(p: seq<byte>, payload: cstring, n: nat, at: nat)
    requires Carries(p, payload) && n <= PACKET && at + 4 <= 46
    ensures Get32(ThroughTunnel(p, payload, n), at) == ReadAddress(Get32(p, at), at, n)
  {
    hide KeyByte, Surviving;
    HostOrderOf(p, at);
    hide HostOrder, Join32;
    var r := ThroughTunnel(p, payload, n);
    assert r[at] == if at < n then p[at] else KeyByte(at);
    assert r[at + 1] == if at + 1 < n then p[at + 1] else KeyByte(at + 1);
    assert r[at + 2] == if at + 2 < n then p[at + 2] else KeyByte(at + 2);
    assert r[at + 3] == if at + 3 < n then p[at + 3] else KeyByte(at + 3);
  }

  lemma HostOrderOf(p: seq<byte>, at: nat)
    requires at + 4 <= |p|
    ensures HostOrder(Get32(p, at)) == [p[at], p[at + 1], p[at + 2], p[at + 3]]
  {
    Digits32(Get32(p, at), p[at], p[at + 1], p[at + 2], p[at + 3]);
  }
}
