/** The wire format: an 8-byte little-endian length, then the body. */
module Frame {
  import opened Bytes

  const HEADER: nat := 8

  function Pow256(k: nat): (r: nat)
    ensures 1 <= r
  {
    if k == 0 then 1 else 256 * Pow256(k - 1)
  }

  /** The k low bytes of n, least significant first, as memcpy stores a machine word. */
  function StoreWord(n: nat, k: nat): (r: seq<byte>)
    ensures |r| == k
  {
    if k == 0 then [] else [n % 256] + StoreWord(n / 256, k - 1)
  }

  function LoadWord(s: seq<byte>): nat {
    if s == [] then 0 else s[0] + 256 * LoadWord(s[1..])
  }

  /** A machine word comes back as it was stored. */
  lemma {:induction false} LoadStored(n: nat, k: nat)
    requires n < Pow256(k)
    ensures LoadWord(StoreWord(n, k)) == n
  {
    if k != 0 {
      assert n / 256 < Pow256(k - 1);
      LoadStored(n / 256, k - 1);
      assert StoreWord(n, k)[1..] == StoreWord(n / 256, k - 1);
    }
  }

  /** The frame of a body. */
  function Encode(body: seq<byte>): (r: seq<byte>)
    ensures |r| == HEADER + |body|
  {
    StoreWord(|body|, HEADER) + body
  }

  lemma HeaderOf(body: seq<byte>, n: nat)
    requires |body| == n < 0x1_0000_0000
    ensures Encode(body)[..HEADER] == StoreWord(n, HEADER) && LoadWord(Encode(body)[..HEADER]) == n
    ensures Encode(body)[HEADER..] == body
  {
    assert Pow256(4) == 0x1_0000_0000;
    assert Pow256(8) >= Pow256(4) by {
      assert Pow256(6) == 65536 * Pow256(4);
      assert Pow256(8) == 65536 * Pow256(6);
    }
    LoadStored(n, HEADER);
  }

  /** A frame byte by byte: eight of the length, least significant first, then the body. */
  lemma FrameLayout(body: seq<byte>)
    requires |body| < 0x1_0000_0000
    ensures var n, f := |body|, Encode(body);
            && |f| == 8 + n
            && f[0] == n % 256 && f[1] == n / 256 % 256 && f[2] == n / 65536 % 256 && f[3] == n / 16777216
            && f[4] == f[5] == f[6] == f[7] == 0
            && f[8..] == body
  {
    var n := |body|;
    Divisions(n);
    hide StoreWord;
    OneByte(0, 1);
    OneByte(0, 2);
    OneByte(0, 3);
    OneByte(0, 4);
    OneByte(n / 16777216, 5);
    OneByte(n / 65536, 6);
    OneByte(n / 256, 7);
    OneByte(n, 8);
  }

  lemma OneByte(n: nat, k: nat)
    requires 1 <= k
    ensures StoreWord(n, k) == [n % 256] + StoreWord(n / 256, k - 1)
  {
  }

  lemma Divisions(n: nat)
    requires n < 0x1_0000_0000
    ensures n / 256 / 256 == n / 65536 && n / 65536 / 256 == n / 16777216 < 256
  {
  }

  function Concat(cs: seq<seq<byte>>): seq<byte> {
    if cs == [] then [] else cs[0] + Concat(cs[1..])
  }
}
