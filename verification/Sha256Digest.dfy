/** The 256-bit digest as the four 64-bit words a block pointer stores. */
module Sha256Digest {
  import opened Base
  import opened Sha256Spec
  import opened Sha256Words
  import Sha256Stream

  function Join(high: word, low: word): (r: bv64) {
    ((high as bv64) << 32) | (low as bv64)
  }

  function Pack(h: Regs<word>): (r: seq<bv64>) {
    [Join(h.a, h.b), Join(h.c, h.d), Join(h.e, h.f), Join(h.g, h.h)]
  }

  lemma JoinHalves(high: word, low: word)
    ensures Join(high, low) >> 32 == high as bv64
    ensures Join(high, low) & 0xffff_ffff == low as bv64
  {
  }

  /** The registers in order, two to a word, the first in the high half. */
  lemma PackIs(h: Regs<word>)
    ensures var p := Pack(h);
            && |p| == 4
            && p[0] >> 32 == h.a as bv64 && p[0] & 0xffff_ffff == h.b as bv64
            && p[1] >> 32 == h.c as bv64 && p[1] & 0xffff_ffff == h.d as bv64
            && p[2] >> 32 == h.e as bv64 && p[2] & 0xffff_ffff == h.f as bv64
            && p[3] >> 32 == h.g as bv64 && p[3] & 0xffff_ffff == h.h as bv64
  {
    hide Join;
    JoinHalves(h.a, h.b);
    JoinHalves(h.c, h.d);
    JoinHalves(h.e, h.f);
    JoinHalves(h.g, h.h);
  }

  lemma JoinInjective(high: word, low: word, high': word, low': word)
    requires Join(high, low) == Join(high', low')
    ensures high == high' && low == low'
  {
    JoinHalves(high, low);
    JoinHalves(high', low');
  }

  /** Packing loses nothing: two digests are equal as 64-bit words exactly when
    * their eight registers are. */
  lemma PackInjective(x: Regs<word>, y: Regs<word>)
    ensures Pack(x) == Pack(y) <==> x == y
  {
    if Pack(x) == Pack(y) {
      var p, q := Pack(x), Pack(y);
      assert p[0] == q[0] && p[1] == q[1] && p[2] == q[2] && p[3] == q[3];
      JoinInjective(x.a, x.b, y.a, y.b);
      JoinInjective(x.c, x.d, y.c, y.d);
      JoinInjective(x.e, x.f, y.e, y.f);
      JoinInjective(x.g, x.h, y.g, y.h);
    }
  }

  lemma HashIsFips(message: seq<byte>)
    ensures Hash(Source(), K(), H0, message) == Hash(Fips(), K(), H0, message)
  {
    SourceIsFips();
    BlocksAgree(Source(), Fips(), K(), H0, message + Padding(|message|));
  }

  /** The program's digest is the digest of FIPS 180-4. */
  method Digest(data: seq<byte>) returns (r: seq<bv64>)
    requires 8 * |data| < U64_SIZE
    ensures r == Pack(Hash(Fips(), K(), H0, data))
  {
    SourceIsFips();
    HashIsFips(data);
    var stream := new Sha256Stream.Stream(Source(), K(), H0);
    var h := stream.HashAll(data);
    r := Pack(h);
  }
}
