/** What the server's two header rewrites do to a packet, alone and in any sequence. */
module Rewriting {
  import opened Bytes
  import opened Checksum
  import opened ChecksumLaws
  import opened Packet
  import opened Wrappers

  // ----- frame

  /** `ntohs(ip_sum)` is the checksum of the byte-swapped header. */
  predicate HeaderSound(p: seq<byte>)
    requires |p| >= 26
  {
    Swap16(Get16(p, 16)) == CksumOf(NetHeader(p))
  }

  lemma ResummedFrame(p: seq<byte>)
    requires |p| >= 26
    ensures forall i :: 0 <= i < |p| && i != 16 && i != 17 ==> Resummed(p)[i] == p[i]
    ensures Swap16(Get16(Resummed(p), 16)) == CksumOf(NetHeader(p))
    ensures NetHeader(Resummed(p)) == NetHeader(p)
  {
    hide CksumOf, Swap16;
    Swap16Involution(CksumOf(NetHeader(p)));
  }

  /** A source rewrite sets the source, recomputes the checksum, and touches nothing else. */
  lemma SourceRewriteFrame(p: seq<byte>, addr: uint32)
    requires |p| >= 26
    ensures var r := SourceRewritten(p, addr);
            && Get32(r, 18) == addr
            && Get32(r, 22) == Get32(p, 22)
            && (forall i :: 0 <= i < |p| && !(16 <= i < 22) ==> r[i] == p[i])
            && HeaderSound(r)
  {
    hide CksumOf, Swap16, Resummed, NetHeader;
    ResummedFrame(Put32(p, 18, addr));
    Get32OfPut32(p, 18, addr);
  }

  /** A destination rewrite likewise. */
  lemma DestRewriteFrame(p: seq<byte>, addr: uint32)
    requires |p| >= 26
    ensures var r := DestRewritten(p, addr);
            && Get32(r, 22) == addr
            && Get32(r, 18) == Get32(p, 18)
            && (forall i :: 0 <= i < |p| && !(16 <= i < 18) && !(22 <= i < 26) ==> r[i] == p[i])
            && HeaderSound(r)
  {
    hide CksumOf, Swap16, Resummed, NetHeader;
    ResummedFrame(Put32(p, 22, addr));
    Get32OfPut32(p, 22, addr);
  }

  /** Exactly two values of the checksum field make the byte-swapped header verify: the sound one, and
      0 where that one is 0xffff. */
  lemma SoundHeaderVerifies(p: seq<byte>)
    requires |p| >= 26
    ensures CksumOf(Put16(NetHeader(p), 10, Swap16(Get16(p, 16)))) == 0xffff
            <==> HeaderSound(p) || (Swap16(Get16(p, 16)) == 0 && CksumOf(NetHeader(p)) == 0xffff)
  {
    hide CksumOf, Swap16;
    SelfVerification(NetHeader(p), 10, Swap16(Get16(p, 16)));
  }

  lemma SoundnessIsInHeader(p: seq<byte>, q: seq<byte>)
    requires |p| >= 26 && |q| >= 26 && p[6..26] == q[6..26]
    ensures HeaderSound(p) == HeaderSound(q)
  {
    hide CksumOf, Swap16;
    assert forall i :: 6 <= i < 26 ==> p[6..26][i - 6] == p[i] && q[6..26][i - 6] == q[i];
    assert NetHeader(p) == NetHeader(q);
  }

  // ----- algebra

  datatype Rewrite = ToSource(addr: uint32) | ToDest(addr: uint32)

  function Apply(p: seq<byte>, w: Rewrite): (r: seq<byte>)
    requires |p| >= 26
    ensures |r| == |p|
  {
    match w
    case ToSource(a) => SourceRewritten(p, a)
    case ToDest(a) => DestRewritten(p, a)
  }

  function ApplyAll(p: seq<byte>, ws: seq<Rewrite>): (r: seq<byte>)
    requires |p| >= 26
    ensures |r| == |p|
  {
    if ws == [] then p else Apply(ApplyAll(p, ws[..|ws| - 1]), ws[|ws| - 1])
  }

  function LastSource(ws: seq<Rewrite>): Option<uint32> {
    if ws == [] then None
    else if ws[|ws| - 1].ToSource? then Some(ws[|ws| - 1].addr)
    else LastSource(ws[..|ws| - 1])
  }

  function LastDest(ws: seq<Rewrite>): Option<uint32> {
    if ws == [] then None
    else if ws[|ws| - 1].ToDest? then Some(ws[|ws| - 1].addr)
    else LastDest(ws[..|ws| - 1])
  }

  /** At most one rewrite of each kind. */
  function ApplyLast(p: seq<byte>, src: Option<uint32>, dst: Option<uint32>): (r: seq<byte>)
    requires |p| >= 26
    ensures |r| == |p|
  {
    var q := if src.Some? then SourceRewritten(p, src.value) else p;
    if dst.Some? then DestRewritten(q, dst.value) else q
  }

  /** A later rewrite recomputes the checksum from scratch. */
  lemma ResumAbsorbed(p: seq<byte>, at: nat, v: uint32)
    requires |p| >= 26 && (at == 18 || at == 22)
    ensures Resummed(Put32(Resummed(p), at, v)) == Resummed(Put32(p, at, v))
  {
    hide CksumOf, Swap16;
    assert NetHeader(Put32(Resummed(p), at, v)) == NetHeader(Put32(p, at, v));
  }

  lemma PutTwice(p: seq<byte>, at: nat, u: uint32, v: uint32)
    requires at + 4 <= |p|
    ensures Put32(Put32(p, at, u), at, v) == Put32(p, at, v)
  {
  }

  lemma PutsCommute(p: seq<byte>, u: uint32, v: uint32)
    requires |p| >= 26
    ensures Put32(Put32(p, 18, u), 22, v) == Put32(Put32(p, 22, v), 18, u)
  {
  }

  /** Last writer wins; with equal addresses, rewriting is idempotent. */
  lemma LastWriterWins(p: seq<byte>, a: uint32, b: uint32)
    requires |p| >= 26
    ensures SourceRewritten(SourceRewritten(p, a), b) == SourceRewritten(p, b)
    ensures DestRewritten(DestRewritten(p, a), b) == DestRewritten(p, b)
  {
    hide Put32, Resummed;
    ResumAbsorbed(Put32(p, 18, a), 18, b);
    ResumAbsorbed(Put32(p, 22, a), 22, b);
    PutTwice(p, 18, a, b);
    PutTwice(p, 22, a, b);
  }

  lemma RewritesCommute(p: seq<byte>, s: uint32, d: uint32)
    requires |p| >= 26
    ensures SourceRewritten(DestRewritten(p, d), s) == DestRewritten(SourceRewritten(p, s), d)
  {
    hide Put32, Resummed;
    ResumAbsorbed(Put32(p, 22, d), 18, s);
    ResumAbsorbed(Put32(p, 18, s), 22, d);
    PutsCommute(p, s, d);
  }

  /** Any sequence of rewrites equals the last source rewrite followed by the last destination
      rewrite, checksum bytes included. */
  lemma {:induction false} RewriteNormalForm(p: seq<byte>, ws: seq<Rewrite>)
    requires |p| >= 26
    ensures ApplyAll(p, ws) == ApplyLast(p, LastSource(ws), LastDest(ws))
  {
    if ws != [] {
      hide SourceRewritten, DestRewritten;
      var init, last := ws[..|ws| - 1], ws[|ws| - 1];
      RewriteNormalForm(p, init);
      var s, d := LastSource(init), LastDest(init);
      var q := if s.Some? then SourceRewritten(p, s.value) else p;
      if last.ToSource? {
        if d.Some? {
          RewritesCommute(q, last.addr, d.value);
        }
        if s.Some? {
          LastWriterWins(p, s.value, last.addr);
        }
      } else if d.Some? {
        LastWriterWins(q, d.value, last.addr);
      }
    }
  }
}
