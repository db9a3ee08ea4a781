/**
 * The role checks of src/controller/config.rs. A role is an `i64` whose
 * bits grant rights: bit 63 super user, bit 62 torrent management, bit 61
 * user management, bit 60 site management, bit 1 inviting, bit 0 ordinary
 * use. Each check masks the role with `1 << k` and compares with zero.
 *
 * The `&` of two `i64`s is modelled on their two's-complement bit patterns,
 * read as unsigned numbers, one bit at a time. Each check is then related
 * to an independent reading of bit k: k halvings, then the parity.
 */
module Roles {
  import opened Bytes

  /** Width of an `i64` in bits. */
  const WORD: nat := 64

  const SU_BIT: nat := 63
  const TORRENTS_BIT: nat := 62
  const USERS_BIT: nat := 61
  const SITE_BIT: nat := 60
  const INVITE_BIT: nat := 1
  const ORDINARY_BIT: nat := 0

  const TWO_63: nat := 0x8000_0000_0000_0000
  const TWO_64: nat := 0x1_0000_0000_0000_0000

  function Pow2(k: nat): (p: nat)
    ensures p >= 1
  {
    if k == 0 then 1 else 2 * Pow2(k - 1)
  }

  /** The two's-complement bit pattern of an `i64`, as an unsigned number. */
  function Unsigned(r: i64): (u: nat)
    ensures u < TWO_64
    ensures r >= 0 ==> u == r
    ensures r < 0 ==> u == r + TWO_64
  {
    if r < 0 then r + TWO_64 else r
  }

  lemma Pow2Word()
    ensures Pow2(SU_BIT) == TWO_63 && Pow2(WORD) == TWO_64
  {
    assert Pow2(3) == 8;
    assert Pow2(6) == 0x40 by { Pow2Add(3, 3); }
    assert Pow2(12) == 0x1000 by { Pow2Add(6, 6); }
    assert Pow2(24) == 0x100_0000 by { Pow2Add(12, 12); }
    assert Pow2(48) == 0x1_0000_0000_0000 by { Pow2Add(24, 24); }
    assert Pow2(60) == 0x1000_0000_0000_0000 by { Pow2Add(48, 12); }
    assert Pow2(63) == TWO_63 by { Pow2Add(60, 3); }
    assert Pow2(64) == 2 * Pow2(63);
  }

  lemma {:induction false} Pow2Add(a: nat, b: nat)
    ensures Pow2(a + b) == Pow2(a) * Pow2(b)
    decreases b
  {
    if b > 0 {
      Pow2Add(a, b - 1);
    }
  }

  /** `a & b` on the lowest `n` bits of two unsigned numbers. */
  function And(a: nat, b: nat, n: nat): (r: nat)
    ensures r < Pow2(n)
  {
    if n == 0 then 0
    else (if a % 2 == 1 && b % 2 == 1 then 1 else 0) + 2 * And(a / 2, b / 2, n - 1)
  }

  /** `1 << k` as an `i64`: bit k alone, which for k = 63 is `i64::MIN`. */
  function Shl1(k: nat): (r: i64)
    requires k < WORD
    ensures Unsigned(r) == Pow2(k)
  {
    Pow2Word();
    Pow2Below(k, SU_BIT);
    if k == SU_BIT then I64_MIN else Pow2(k)
  }

  lemma {:induction false} Pow2Below(j: nat, k: nat)
    ensures j < k ==> Pow2(j) < Pow2(k)
    decreases k
  {
    if j < k - 1 {
      Pow2Below(j, k - 1);
    }
  }

  /** The reference reading of bit k: drop k low bits by halving, then look at the parity. */
  function Bit(x: nat, k: nat): bool {
    if k == 0 then x % 2 == 1 else Bit(x / 2, k - 1)
  }

  /** `role & (1 << k) == 0`: the shape every check in the file shares. */
  function MaskClear(role: i64, k: nat): (b: bool)
    requires k < WORD
    ensures b <==> !Bit(Unsigned(role), k)
  {
    AndSingleBit(Unsigned(role), k, WORD);
    And(Unsigned(role), Unsigned(Shl1(k)), WORD) == 0
  }

  /** Masking with a single bit leaves zero exactly when that bit is clear. */
  lemma {:induction false} AndSingleBit(x: nat, k: nat, n: nat)
    requires k < n
    ensures And(x, Pow2(k), n) == 0 <==> !Bit(x, k)
    decreases k
  {
    if k == 0 {
      AndZero(x / 2, n - 1);
    } else {
      assert Pow2(k) % 2 == 0 && Pow2(k) / 2 == Pow2(k - 1);
      AndSingleBit(x / 2, k - 1, n - 1);
    }
  }

  lemma {:induction false} AndZero(x: nat, n: nat)
    ensures And(x, 0, n) == 0
    decreases n
  {
    if n > 0 {
      AndZero(x / 2, n - 1);
    }
  }

  /** `is_not_su`. */
  function IsNotSu(role: i64): (b: bool)
    ensures b <==> !Bit(Unsigned(role), SU_BIT)
  {
    MaskClear(role, SU_BIT)
  }

  /** `is_no_permission_to_torrents`. */
  function IsNoPermissionToTorrents(role: i64): (b: bool)
    ensures b <==> !Bit(Unsigned(role), TORRENTS_BIT)
  {
    MaskClear(role, TORRENTS_BIT)
  }

  /** `is_no_permission_to_users`. */
  function IsNoPermissionToUsers(role: i64): (b: bool)
    ensures b <==> !Bit(Unsigned(role), USERS_BIT)
  {
    MaskClear(role, USERS_BIT)
  }

  /** `is_no_permission_to_site`. */
  function IsNoPermissionToSite(role: i64): (b: bool)
    ensures b <==> !Bit(Unsigned(role), SITE_BIT)
  {
    MaskClear(role, SITE_BIT)
  }

  /** `cannot_invite`. */
  function CannotInvite(role: i64): (b: bool)
    ensures b <==> !Bit(Unsigned(role), INVITE_BIT)
  {
    MaskClear(role, INVITE_BIT)
  }

  /** `is_not_ordinary_user`. */
  function IsNotOrdinaryUser(role: i64): (b: bool)
    ensures b <==> !Bit(Unsigned(role), ORDINARY_BIT)
  {
    MaskClear(role, ORDINARY_BIT)
  }

  /** Bit 63 is the sign bit: a role lacks the super-user right exactly when it is not negative. */
  lemma SuIsSign(role: i64)
    ensures IsNotSu(role) <==> role >= 0
  {
    Pow2Word();
    TopBit(Unsigned(role), SU_BIT);
  }

  /** In a number below 2^(n+1), bit n is set exactly when the number is at least 2^n. */
  lemma {:induction false} TopBit(u: nat, n: nat)
    requires u < 2 * Pow2(n)
    ensures Bit(u, n) <==> u >= Pow2(n)
    decreases n
  {
    if n > 0 {
      TopBit(u / 2, n - 1);
    }
  }

  /** Bit 0 is the parity: a role lacks the ordinary right exactly when it is even. */
  lemma OrdinaryIsParity(role: i64)
    ensures IsNotOrdinaryUser(role) <==> role % 2 == 0
  {
  }

  /** Bit 1 is the parity of the role halved (rounding toward minus infinity). */
  lemma InviteIsSecondBit(role: i64)
    ensures CannotInvite(role) <==> (role / 2) % 2 == 0
  {
    Pow2Word();
    var u := Unsigned(role);
    if role < 0 {
      var h := role / 2;
      assert role == 2 * h + role % 2;
      assert u == 2 * (h + TWO_63) + role % 2;
      assert u / 2 == h + TWO_63;
      assert (h + TWO_63) % 2 == h % 2;
    }
    assert Bit(u, INVITE_BIT) == Bit(u / 2, 0);
  }

  /** The role 0 holds no right at all. */
  lemma NoRights(role: i64)
    requires role == 0
    ensures IsNotSu(role) && IsNoPermissionToTorrents(role) && IsNoPermissionToUsers(role)
    ensures IsNoPermissionToSite(role) && CannotInvite(role) && IsNotOrdinaryUser(role)
  {
    AllBitsZero(Unsigned(role), SU_BIT);
    AllBitsZero(Unsigned(role), TORRENTS_BIT);
    AllBitsZero(Unsigned(role), USERS_BIT);
    AllBitsZero(Unsigned(role), SITE_BIT);
    AllBitsZero(Unsigned(role), INVITE_BIT);
  }

  /** The role -1, every bit set, holds every right. */
  lemma AllRights(role: i64)
    requires role == -1
    ensures !IsNotSu(role) && !IsNoPermissionToTorrents(role) && !IsNoPermissionToUsers(role)
    ensures !IsNoPermissionToSite(role) && !CannotInvite(role) && !IsNotOrdinaryUser(role)
  {
    Pow2Word();
    assert Unsigned(role) == Pow2(WORD) - 1;
    AllBitsOne(WORD, SU_BIT);
    AllBitsOne(WORD, TORRENTS_BIT);
    AllBitsOne(WORD, USERS_BIT);
    AllBitsOne(WORD, SITE_BIT);
    AllBitsOne(WORD, INVITE_BIT);
    AllBitsOne(WORD, ORDINARY_BIT);
  }

  lemma {:induction false} AllBitsZero(x: nat, k: nat)
    requires x == 0
    ensures !Bit(x, k)
    decreases k
  {
    if k > 0 {
      AllBitsZero(x / 2, k - 1);
    }
  }

  /** Every one of the low n bits of 2^n - 1 is set. */
  lemma {:induction false} AllBitsOne(n: nat, k: nat)
    requires k < n
    ensures Bit(Pow2(n) - 1, k)
    decreases k
  {
    if k > 0 {
      assert (Pow2(n) - 1) / 2 == Pow2(n - 1) - 1;
      AllBitsOne(n - 1, k - 1);
    }
  }
}
