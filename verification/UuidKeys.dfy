/** UUIDs, the two orders backends compare them in, and the 128-bit sort keys of those orders. */
module UuidKeys {
  import opened MachineInts

  type Byte = b: int | 0 <= b < 256

  /** The sixteen bytes of a UUID in canonical (big-endian) layout. */
  type Uuid = u: seq<Byte> | |u| == 16 witness seq(16, _ => 0)

  datatype UuidOrder = Lexical | SqlServer

  /** Canonical byte positions, most significant first, as `uniqueidentifier` weighs them. */
  const SQLSERVER_ORDER: seq<nat> := [10, 11, 12, 13, 14, 15, 8, 9, 7, 6, 5, 4, 3, 2, 1, 0]

  /** Where each canonical byte stands in that order. */
  const SQLSERVER_PLACE: seq<nat> := [15, 14, 13, 12, 11, 10, 9, 8, 6, 7, 0, 1, 2, 3, 4, 5]

  lemma OrderIsPermutation()
    ensures |SQLSERVER_ORDER| == |SQLSERVER_PLACE| == 16
    ensures forall i :: 0 <= i < 16 ==> SQLSERVER_ORDER[i] < 16 && SQLSERVER_PLACE[SQLSERVER_ORDER[i]] == i
    ensures forall i :: 0 <= i < 16 ==> SQLSERVER_PLACE[i] < 16 && SQLSERVER_ORDER[SQLSERVER_PLACE[i]] == i
  {
  }

  // ----- Big-endian digits ---------------------------------------------------------------------

  function Pow256(n: nat): (p: nat)
    ensures p > 0
  {
    if n == 0 then 1 else 256 * Pow256(n - 1)
  }

  lemma Pow256Of16()
    ensures Pow256(16) == U128_LIMIT
  {
    assert Pow256(4) == 0x1_0000_0000;
    assert Pow256(8) == 0x1_0000_0000_0000_0000;
    assert Pow256(12) == 0x1_0000_0000_0000_0000_0000_0000;
  }

  function BeValue(bytes: seq<Byte>): nat {
    if bytes == [] then 0 else BeValue(bytes[..|bytes| - 1]) * 256 + bytes[|bytes| - 1]
  }

  function BeBytes(value: nat, n: nat): (bytes: seq<Byte>)
    ensures |bytes| == n
  {
    if n == 0 then [] else BeBytes(value / 256, n - 1) + [value % 256]
  }

  lemma {:induction false} BeValueBound(bytes: seq<Byte>)
    ensures BeValue(bytes) < Pow256(|bytes|)
  {
    if bytes != [] {
      BeValueBound(bytes[..|bytes| - 1]);
    }
  }

  lemma {:induction false} BytesOfValue(bytes: seq<Byte>)
    ensures BeBytes(BeValue(bytes), |bytes|) == bytes
  {
    if bytes != [] {
      BytesOfValue(bytes[..|bytes| - 1]);
    }
  }

  lemma {:induction false} ValueOfBytes(value: nat, n: nat)
    requires value < Pow256(n)
    ensures BeValue(BeBytes(value, n)) == value
  {
    if n > 0 {
      ValueOfBytes(value / 256, n - 1);
      var bytes := BeBytes(value, n);
      assert bytes[..n - 1] == BeBytes(value / 256, n - 1);
    }
  }

  ghost predicate LexLess(a: seq<Byte>, b: seq<Byte>)
    requires |a| == |b|
  {
    exists k :: 0 <= k < |a| && a[..k] == b[..k] && a[k] < b[k]
  }

  lemma {:induction false} FirstDifferenceDecides(a: seq<Byte>, b: seq<Byte>, k: nat)
    requires k < |a| == |b| && a[..k] == b[..k] && a[k] < b[k]
    ensures BeValue(a) < BeValue(b)
  {
    var m := |a| - 1;
    if k < m {
      assert a[..m][..k] == a[..k] && b[..m][..k] == b[..k];
      FirstDifferenceDecides(a[..m], b[..m], k);
    }
  }

  lemma {:induction false} SmallerHasFirstDifference(a: seq<Byte>, b: seq<Byte>)
    requires |a| == |b| && BeValue(a) < BeValue(b)
    ensures LexLess(a, b)
  {
    var m := |a| - 1;
    var p, q := a[..m], b[..m];
    if BeValue(p) < BeValue(q) {
      SmallerHasFirstDifference(p, q);
      var k :| 0 <= k < m && p[..k] == q[..k] && p[k] < q[k];
      assert a[..k] == p[..k] && b[..k] == q[..k] && a[k] < b[k];
    } else {
      BytesOfValue(p);
      BytesOfValue(q);
      assert BeValue(p) == BeValue(q) && a[m] < b[m];
    }
  }

  /** Big-endian values compare as their bytes do lexicographically. */
  lemma ValueOrderIsLexOrder(a: seq<Byte>, b: seq<Byte>)
    requires |a| == |b|
    ensures BeValue(a) < BeValue(b) <==> LexLess(a, b)
  {
    if BeValue(a) < BeValue(b) {
      SmallerHasFirstDifference(a, b);
    }
    if LexLess(a, b) {
      var k :| 0 <= k < |a| && a[..k] == b[..k] && a[k] < b[k];
      FirstDifferenceDecides(a, b, k);
    }
  }

  // ----- Sort keys -----------------------------------------------------------------------------

  /** The bytes of a UUID, most significant first, in the given order. */
  function Significance(u: Uuid, order: UuidOrder): Uuid {
    OrderIsPermutation();
    match order
    case Lexical => u
    case SqlServer => seq(16, i requires 0 <= i < 16 => u[SQLSERVER_ORDER[i]])
  }

  function FromSignificance(s: Uuid, order: UuidOrder): Uuid {
    OrderIsPermutation();
    match order
    case Lexical => s
    case SqlServer => seq(16, i requires 0 <= i < 16 => s[SQLSERVER_PLACE[i]])
  }

  function UuidToKey(u: Uuid, order: UuidOrder): (key: nat)
    ensures key < U128_LIMIT
  {
    Pow256Of16();
    BeValueBound(Significance(u, order));
    BeValue(Significance(u, order))
  }

  /** `u128::to_be_bytes`. */
  function KeyBytes(key: nat): Uuid {
    BeBytes(key, |SQLSERVER_ORDER|)
  }

  function KeyToUuid(key: nat, order: UuidOrder): Uuid {
    FromSignificance(KeyBytes(key), order)
  }

  lemma SignificanceInverse(u: Uuid, order: UuidOrder)
    ensures FromSignificance(Significance(u, order), order) == u
    ensures Significance(FromSignificance(u, order), order) == u
  {
    OrderIsPermutation();
  }

  lemma KeyOfUuidInverse(u: Uuid, order: UuidOrder)
    ensures KeyToUuid(UuidToKey(u, order), order) == u
  {
    BytesOfValue(Significance(u, order));
    SignificanceInverse(u, order);
  }

  lemma UuidOfKeyInverse(key: nat, order: UuidOrder)
    requires key < U128_LIMIT
    ensures UuidToKey(KeyToUuid(key, order), order) == key
  {
    Pow256Of16();
    ValueOfBytes(key, 16);
    SignificanceInverse(KeyBytes(key), order);
  }

  /** Keys compare exactly as the bytes read in the backend's order of significance. */
  lemma KeysOrderBySignificance(u: Uuid, v: Uuid, order: UuidOrder)
    ensures UuidToKey(u, order) < UuidToKey(v, order)
            <==> LexLess(Significance(u, order), Significance(v, order))
  {
    ValueOrderIsLexOrder(Significance(u, order), Significance(v, order));
  }

  // ----- The orders themselves -----------------------------------------------------------------

  function Backwards(bytes: seq<Byte>): (r: seq<Byte>)
    ensures |r| == |bytes|
  {
    seq(|bytes|, i requires 0 <= i < |bytes| => bytes[|bytes| - 1 - i])
  }

  /** How `uniqueidentifier` values compare, group by group of the printed form: the node (the fifth group),
      then the fourth, then the third, second and first with their bytes reversed. */
  ghost predicate SqlLess(u: Uuid, v: Uuid) {
    || LexLess(u[10..16], v[10..16])
    || (u[10..16] == v[10..16]
        && (|| LexLess(u[8..10], v[8..10])
            || (u[8..10] == v[8..10]
                && (|| LexLess(Backwards(u[6..8]), Backwards(v[6..8]))
                    || (u[6..8] == v[6..8]
                        && (|| LexLess(Backwards(u[4..6]), Backwards(v[4..6]))
                            || (u[4..6] == v[4..6] && LexLess(Backwards(u[0..4]), Backwards(v[0..4])))))))))
  }

  /** Less in the order a backend compares in. */
  ghost predicate Less(order: UuidOrder, u: Uuid, v: Uuid) {
    match order
    case Lexical => LexLess(u, v)
    case SqlServer => SqlLess(u, v)
  }

  lemma LexFromFirst(a: seq<Byte>, b: seq<Byte>, c: seq<Byte>, d: seq<Byte>)
    requires |a| == |c| && |b| == |d| && LexLess(a, c)
    ensures LexLess(a + b, c + d)
  {
    var k :| 0 <= k < |a| && a[..k] == c[..k] && a[k] < c[k];
    assert (a + b)[..k] == a[..k] && (c + d)[..k] == c[..k];
  }

  lemma LexFromSecond(a: seq<Byte>, b: seq<Byte>, d: seq<Byte>)
    requires |b| == |d| && LexLess(b, d)
    ensures LexLess(a + b, a + d)
  {
    var k :| 0 <= k < |b| && b[..k] == d[..k] && b[k] < d[k];
    var m := |a| + k;
    assert (a + b)[..m] == a + b[..k] && (a + d)[..m] == a + d[..k];
    assert (a + b)[m] == b[k] && (a + d)[m] == d[k];
  }

  lemma LexSplits(a: seq<Byte>, b: seq<Byte>, c: seq<Byte>, d: seq<Byte>)
    requires |a| == |c| && |b| == |d| && LexLess(a + b, c + d)
    ensures LexLess(a, c) || (a == c && LexLess(b, d))
  {
    var x, y := a + b, c + d;
    var k :| 0 <= k < |x| && x[..k] == y[..k] && x[k] < y[k];
    if k < |a| {
      assert a[..k] == x[..k] && c[..k] == y[..k] && a[k] < c[k];
    } else {
      var m := k - |a|;
      assert a == x[..k][..|a|] && c == y[..k][..|a|];
      assert b[..m] == x[..k][|a|..] && d[..m] == y[..k][|a|..];
      assert b[m] == x[k] && d[m] == y[k];
    }
  }

  lemma LexConcat(a: seq<Byte>, b: seq<Byte>, c: seq<Byte>, d: seq<Byte>)
    requires |a| == |c| && |b| == |d|
    ensures LexLess(a + b, c + d) <==> LexLess(a, c) || (a == c && LexLess(b, d))
  {
    if LexLess(a + b, c + d) {
      LexSplits(a, b, c, d);
    }
    if LexLess(a, c) {
      LexFromFirst(a, b, c, d);
    }
    if a == c && LexLess(b, d) {
      LexFromSecond(a, b, d);
    }
  }

  lemma BackwardsInjective(a: seq<Byte>, b: seq<Byte>)
    requires |a| == |b|
    ensures Backwards(a) == Backwards(b) <==> a == b
  {
    if Backwards(a) == Backwards(b) {
      forall i | 0 <= i < |a|
        ensures a[i] == b[i]
      {
        assert Backwards(a)[|a| - 1 - i] == Backwards(b)[|a| - 1 - i];
      }
    }
  }

  lemma SqlSignificance(u: Uuid)
    ensures Significance(u, SqlServer)
            == u[10..16] + (u[8..10] + (Backwards(u[6..8]) + (Backwards(u[4..6]) + Backwards(u[0..4]))))
  {
    OrderIsPermutation();
  }

  lemma LeastGroups(u: Uuid, v: Uuid)
    ensures LexLess(Backwards(u[6..8]) + (Backwards(u[4..6]) + Backwards(u[0..4])),
                    Backwards(v[6..8]) + (Backwards(v[4..6]) + Backwards(v[0..4])))
            <==> || LexLess(Backwards(u[6..8]), Backwards(v[6..8]))
                 || (u[6..8] == v[6..8]
                     && (|| LexLess(Backwards(u[4..6]), Backwards(v[4..6]))
                         || (u[4..6] == v[4..6] && LexLess(Backwards(u[0..4]), Backwards(v[0..4])))))
  {
    LexConcat(Backwards(u[6..8]), Backwards(u[4..6]) + Backwards(u[0..4]),
              Backwards(v[6..8]), Backwards(v[4..6]) + Backwards(v[0..4]));
    LexConcat(Backwards(u[4..6]), Backwards(u[0..4]), Backwards(v[4..6]), Backwards(v[0..4]));
    BackwardsInjective(u[6..8], v[6..8]);
    BackwardsInjective(u[4..6], v[4..6]);
  }

  /** Keys order UUIDs exactly as the backend does. */
  lemma KeysOrderAsBackend(u: Uuid, v: Uuid, order: UuidOrder)
    ensures UuidToKey(u, order) < UuidToKey(v, order) <==> Less(order, u, v)
  {
    KeysOrderBySignificance(u, v, order);
    if order == SqlServer {
      SqlSignificance(u);
      SqlSignificance(v);
      var restU := Backwards(u[6..8]) + (Backwards(u[4..6]) + Backwards(u[0..4]));
      var restV := Backwards(v[6..8]) + (Backwards(v[4..6]) + Backwards(v[0..4]));
      LexConcat(u[10..16], u[8..10] + restU, v[10..16], v[8..10] + restV);
      LexConcat(u[8..10], restU, v[8..10], restV);
      LeastGroups(u, v);
    }
  }

  /** `uuid_to_key`. */
  method ComputeKey(u: Uuid, order: UuidOrder) returns (key: uint128)
    ensures key as int == UuidToKey(u, order)
  {
    OrderIsPermutation();
    if order == Lexical {
      return BeNumber(u);
    }
    Pow256Of16();
    ghost var s := Significance(u, order);
    key := 0;
    for i := 0 to 16
      invariant key as int == BeValue(s[..i])
    {
      BeValueBound(s[..i + 1]);
      PowMonotone(i + 1, 16);
      assert s[..i + 1][..i] == s[..i];
      ShiftAndOr(key, u[SQLSERVER_ORDER[i]] as uint128);
      key := BitOr(ShiftByteLeft(key) as nat, u[SQLSERVER_ORDER[i]]) as uint128;
    }
    assert s[..16] == s;
  }

  /** `Uuid::as_u128`. */
  function BeNumber(u: Uuid): uint128 {
    Pow256Of16();
    BeValueBound(u);
    BeValue(u) as uint128
  }

  lemma {:induction false} PowMonotone(m: nat, n: nat)
    requires m <= n
    ensures Pow256(m) <= Pow256(n)
    decreases n
  {
    if m < n {
      PowMonotone(m, n - 1);
    }
  }

  /** `key_to_uuid`: the key's bytes are stored into a zeroed array at their canonical positions. */
  method RebuildUuid(key: uint128, order: UuidOrder) returns (u: Uuid)
    ensures u == KeyToUuid(key as nat, order)
  {
    OrderIsPermutation();
    var kb := KeyBytes(key as nat);
    if order == Lexical {
      return kb;
    }
    var out := new Byte[16](_ => 0);
    for i := 0 to 16
      invariant forall j :: 0 <= j < i ==> out[SQLSERVER_ORDER[j]] == kb[j]
    {
      out[SQLSERVER_ORDER[i]] := kb[i];
    }
    forall j | 0 <= j < 16
      ensures out[j] == kb[SQLSERVER_PLACE[j]]
    {
      assert SQLSERVER_ORDER[SQLSERVER_PLACE[j]] == j;
    }
    u := out[..];
    assert u == FromSignificance(kb, order);
  }
}
