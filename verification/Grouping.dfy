/** Kind-based fingerprints: devices with the same number of points of each kind share a group. */
module Grouping {
  import opened WordBits

  datatype PointKind = Analog | Binary | Multistate {
    function Name(): string {
      match this
      case Analog => "analog"
      case Binary => "binary"
      case Multistate => "multistate"
    }

    // The place of the kind's name in alphabetical order.
    function Rank(): nat {
      match this
      case Analog => 0
      case Binary => 1
      case Multistate => 2
    }
  }

  datatype DiscoveredPoint = DiscoveredPoint(id: string, dis: string, kind: PointKind, writable: bool, binding: string)

  const U64: nat := 0x1_0000_0000_0000_0000
  const FNV_OFFSET: nat := 0xcbf2_9ce4_8422_2325
  const FNV_PRIME: nat := 0x100_0000_01b3

  function Xor(a: nat, b: nat): nat
    decreases a + b
  {
    if a == 0 && b == 0 then 0
    else 2 * Xor(a / 2, b / 2) + if a % 2 == b % 2 then 0 else 1
  }

  function Mix(hash: nat, byte: nat): nat {
    Xor(hash, byte) * FNV_PRIME % U64
  }

  function MixText(hash: nat, s: string, n: nat): nat
    requires n <= |s|
  {
    if n == 0 then hash else Mix(MixText(hash, s, n - 1), s[n - 1] as nat)
  }

  // Each kind name, then a separator.
  function MixKinds(kinds: seq<PointKind>, n: nat): nat
    requires n <= |kinds|
  {
    if n == 0 then FNV_OFFSET
    else
      var name := kinds[n - 1].Name();
      Mix(MixText(MixKinds(kinds, n - 1), name, |name|), 0xff)
  }

  // The low `n` bytes of `count`, least significant first.
  function MixCount(hash: nat, count: nat, n: nat): nat
    decreases n
  {
    if n == 0 then hash else MixCount(Mix(hash, count % 256), count / 256, n - 1)
  }

  function InsertKind(s: seq<PointKind>, k: PointKind): seq<PointKind> {
    if s == [] || s[|s| - 1].Rank() <= k.Rank() then s + [k]
    else InsertKind(s[..|s| - 1], k) + [s[|s| - 1]]
  }

  function SortKinds(s: seq<PointKind>): seq<PointKind> {
    if s == [] then [] else InsertKind(SortKinds(s[..|s| - 1]), s[|s| - 1])
  }

  function KindsOf(points: seq<DiscoveredPoint>): seq<PointKind> {
    seq(|points|, i requires 0 <= i < |points| => points[i].kind)
  }

  function Fingerprint(points: seq<DiscoveredPoint>): nat {
    var kinds := SortKinds(KindsOf(points));
    MixCount(MixKinds(kinds, |kinds|), |kinds| % U64, 8)
  }

  // The hashing loops of the source.
  method ComputeFingerprint(points: seq<DiscoveredPoint>) returns (hash: nat)
    ensures hash == Fingerprint(points)
  {
    hide Mix;
    var kinds := SortKinds(KindsOf(points));
    hash := FNV_OFFSET;
    for i := 0 to |kinds|
      invariant hash == MixKinds(kinds, i)
    {
      var name := kinds[i].Name();
      for j := 0 to |name|
        invariant hash == MixText(MixKinds(kinds, i), name, j)
      {
        hash := Mix(hash, name[j] as nat);
      }
      hash := Mix(hash, 0xff);
    }
    var count: nat := |kinds| % U64;
    for j := 0 to 8
      invariant Fingerprint(points) == MixCount(hash, count, 8 - j)
    {
      hash := Mix(hash, count % 256);
      count := count / 256;
    }
  }

  // ----- the sorted kinds depend on the bag of kinds alone -----

  ghost predicate KindsSorted(s: seq<PointKind>) {
    forall i, j | 0 <= i < j < |s| :: s[i].Rank() <= s[j].Rank()
  }

  lemma {:induction false} InsertKindPermutes(s: seq<PointKind>, k: PointKind)
    ensures multiset(InsertKind(s, k)) == multiset(s) + multiset{k}
  {
    if s != [] && s[|s| - 1].Rank() > k.Rank() {
      InsertKindPermutes(s[..|s| - 1], k);
      assert s == s[..|s| - 1] + [s[|s| - 1]];
    }
  }

  lemma {:induction false} InsertKindSorts(s: seq<PointKind>, k: PointKind)
    requires KindsSorted(s)
    ensures KindsSorted(InsertKind(s, k))
  {
    if s != [] && s[|s| - 1].Rank() > k.Rank() {
      var front, last := s[..|s| - 1], s[|s| - 1];
      InsertKindSorts(front, k);
      InsertKindPermutes(front, k);
      var r := InsertKind(front, k);
      forall j | 0 <= j < |r| ensures r[j].Rank() <= last.Rank() {
        assert r[j] in multiset(r);
        assert r[j] == k || r[j] in front;
      }
    }
  }

  lemma {:induction false} SortKindsSorts(s: seq<PointKind>)
    ensures KindsSorted(SortKinds(s)) && multiset(SortKinds(s)) == multiset(s)
  {
    assert KindsSorted([]);
    if s != [] {
      hide InsertKind, KindsSorted;
      var front, last := s[..|s| - 1], s[|s| - 1];
      SortKindsSorts(front);
      InsertKindSorts(SortKinds(front), last);
      InsertKindPermutes(SortKinds(front), last);
      assert multiset(s) == multiset(front) + multiset{last} by { assert s == front + [last]; }
    }
  }

  lemma LastIsGreatest(s: seq<PointKind>, k: PointKind)
    requires KindsSorted(s) && k in s
    ensures k.Rank() <= s[|s| - 1].Rank()
  {
  }

  lemma BagWithoutLast(s: seq<PointKind>)
    requires s != []
    ensures multiset(s[..|s| - 1]) == multiset(s) - multiset{s[|s| - 1]}
  {
    assert s == s[..|s| - 1] + [s[|s| - 1]];
  }

  lemma SameLast(s: seq<PointKind>, t: seq<PointKind>)
    requires KindsSorted(s) && KindsSorted(t) && multiset(s) == multiset(t) && s != [] && t != []
    ensures s[|s| - 1] == t[|t| - 1]
  {
    var a, b := s[|s| - 1], t[|t| - 1];
    assert a in multiset(t) && b in multiset(s);
    LastIsGreatest(t, a);
    LastIsGreatest(s, b);
  }

  lemma FrontIsSorted(s: seq<PointKind>)
    requires KindsSorted(s) && s != []
    ensures KindsSorted(s[..|s| - 1])
  {
  }

  lemma FrontAndLast(s: seq<PointKind>, t: seq<PointKind>)
    requires s != [] && t != [] && s[..|s| - 1] == t[..|t| - 1] && s[|s| - 1] == t[|t| - 1]
    ensures s == t
  {
    assert s == s[..|s| - 1] + [s[|s| - 1]] && t == t[..|t| - 1] + [t[|t| - 1]];
  }

  lemma {:induction false} SortedKindsUnique(s: seq<PointKind>, t: seq<PointKind>)
    requires KindsSorted(s) && KindsSorted(t) && multiset(s) == multiset(t)
    ensures s == t
  {
    assert |s| == |multiset(s)| == |multiset(t)| == |t|;
    if s != [] {
      hide KindsSorted;
      SameLast(s, t);
      BagWithoutLast(s);
      BagWithoutLast(t);
      FrontIsSorted(s);
      FrontIsSorted(t);
      SortedKindsUnique(s[..|s| - 1], t[..|t| - 1]);
      FrontAndLast(s, t);
    }
  }

  // The fingerprint ignores the order of points and everything about a point but its kind.
  lemma FingerprintOfKinds(a: seq<DiscoveredPoint>, b: seq<DiscoveredPoint>)
    requires multiset(KindsOf(a)) == multiset(KindsOf(b))
    ensures Fingerprint(a) == Fingerprint(b)
  {
    hide MixKinds, MixCount, SortKinds;
    SortKindsSorts(KindsOf(a));
    SortKindsSorts(KindsOf(b));
    SortedKindsUnique(SortKinds(KindsOf(a)), SortKinds(KindsOf(b)));
  }

  // ----- group node ids -----

  function HexDigit(d: nat): char
    requires d < 16
  {
    "0123456789abcdef"[d]
  }

  function Hex(n: nat, digits: nat): string {
    if digits == 0 then "" else Hex(n / 16, digits - 1) + [HexDigit(n % 16)]
  }

  const GROUP_PREFIX: string := "group-"

  function GroupNodeId(fingerprint: nat): string {
    GROUP_PREFIX + Hex(fingerprint, 16)
  }

  predicate HasGroupPrefix(id: string) {
    GROUP_PREFIX <= id
  }

  // ----- fingerprints that differ -----

  lemma OddFactor(x: nat, half: nat)
    ensures x * (2 * half + 1) % 2 == x % 2
  {
    assert x * (2 * half + 1) == 2 * (x * half) + x;
  }

  lemma EvenModulus(y: nat, half: nat)
    requires half > 0
    ensures y % (2 * half) % 2 == y % 2
  {
    var q, r := y / (2 * half), y % (2 * half);
    assert y == 2 * half * q + r;
    assert 2 * half * q == 2 * (half * q);
  }

  // The prime is odd and the modulus even, so hashing a byte adds its parity.
  lemma MixParity(hash: nat, byte: nat)
    ensures Mix(hash, byte) % 2 == (hash + byte) % 2
  {
    var x := Xor(hash, byte);
    assert x % 2 == (hash + byte) % 2;
    OddFactor(x, FNV_PRIME / 2);
    EvenModulus(x * FNV_PRIME, U64 / 2);
  }

  function Sum(s: string, n: nat): nat
    requires n <= |s|
  {
    if n == 0 then 0 else Sum(s, n - 1) + s[n - 1] as nat
  }

  lemma AddParity(a: nat, b: nat, c: nat)
    requires a % 2 == b % 2
    ensures (a + c) % 2 == (b + c) % 2
  {
  }

  lemma {:induction false} TextParity(hash: nat, s: string, n: nat)
    requires n <= |s|
    ensures MixText(hash, s, n) % 2 == (hash + Sum(s, n)) % 2
  {
    if n > 0 {
      hide Mix;
      TextParity(hash, s, n - 1);
      MixParity(MixText(hash, s, n - 1), s[n - 1] as nat);
      AddParity(MixText(hash, s, n - 1), hash + Sum(s, n - 1), s[n - 1] as nat);
    }
  }

  lemma {:induction false} CountParity(hash: nat, count: nat, n: nat)
    requires count < 256
    ensures n > 0 ==> MixCount(hash, count, n) % 2 == (hash + count) % 2
    ensures n == 0 || count == 0 ==> MixCount(hash, count, n) % 2 == hash % 2
    decreases n
  {
    if n > 0 {
      hide Mix;
      CountParity(Mix(hash, count % 256), count / 256, n - 1);
      MixParity(hash, count);
    }
  }

  // The last bit of the fingerprint of a device with one point.
  lemma OnePointParity(pt: DiscoveredPoint)
    ensures var name := pt.kind.Name();
            Fingerprint([pt]) % 2 == (FNV_OFFSET + Sum(name, |name|)) % 2
  {
    hide Mix, MixText, MixCount;
    var kinds, name := SortKinds(KindsOf([pt])), pt.kind.Name();
    assert KindsOf([pt]) == [pt.kind];
    assert SortKinds([pt.kind]) == [pt.kind] by { assert [pt.kind][..0] == []; }
    assert MixKinds(kinds, 0) == FNV_OFFSET;
    TextParity(FNV_OFFSET, name, |name|);
    MixParity(MixText(FNV_OFFSET, name, |name|), 0xff);
    CountParity(MixKinds(kinds, 1), 1, 8);
  }

  // One analog point and one binary point make different groups.
  lemma AnalogAndBinaryDiffer(a: DiscoveredPoint, b: DiscoveredPoint)
    requires a.kind == Analog && b.kind == Binary
    ensures GroupNodeId(Fingerprint([a])) != GroupNodeId(Fingerprint([b]))
  {
    hide Fingerprint, Sum, GroupNodeId, HexDigit;
    OnePointParity(a);
    OnePointParity(b);
    NameSums();
    assert |"analog"| == |"binary"| == 6;
    LastDigit(Fingerprint([a]));
    LastDigit(Fingerprint([b]));
    DigitsDiffer(Fingerprint([a]), Fingerprint([b]));
  }

  lemma NameSums()
    ensures (FNV_OFFSET + Sum("analog", 6)) % 2 != (FNV_OFFSET + Sum("binary", 6)) % 2
  {
    assert Sum("analog", 3) == 'a' as nat + 'n' as nat + 'a' as nat;
    assert Sum("analog", 6) == Sum("analog", 3) + 'l' as nat + 'o' as nat + 'g' as nat;
    assert Sum("binary", 3) == 'b' as nat + 'i' as nat + 'n' as nat;
    assert Sum("binary", 6) == Sum("binary", 3) + 'a' as nat + 'r' as nat + 'y' as nat;
  }

  lemma LastDigit(fingerprint: nat)
    ensures var id := GroupNodeId(fingerprint); id != "" && id[|id| - 1] == HexDigit(fingerprint % 16)
  {
    hide HexDigit;
    assert Hex(fingerprint, 16) == Hex(fingerprint / 16, 15) + [HexDigit(fingerprint % 16)];
  }

  lemma DigitsDiffer(a: nat, b: nat)
    requires a % 2 != b % 2
    ensures HexDigit(a % 16) != HexDigit(b % 16)
  {
    EvenModulus(a, 8);
    EvenModulus(b, 8);
  }

  // ----- the hash, written out -----

  // Exclusive or, bit by bit.
  lemma {:induction false} BitOfXor(a: nat, b: nat, k: nat)
    ensures BitAt(Xor(a, b), k) <==> BitAt(a, k) != BitAt(b, k)
    decreases k
  {
    if a == 0 && b == 0 {
      NoBitOfZero(k);
    } else {
      assert Xor(a, b) / 2 == Xor(a / 2, b / 2);
      if k > 0 {
        BitOfXor(a / 2, b / 2, k - 1);
      }
    }
  }

  // The 64-bit FNV-1a hash of the first `n` bytes.
  ghost function Fnv1a(bytes: seq<nat>, n: nat): nat
    requires n <= |bytes|
  {
    if n == 0 then 14695981039346656037
    else Xor(Fnv1a(bytes, n - 1), bytes[n - 1]) * 1099511628211 % 0x1_0000_0000_0000_0000
  }

  ghost function Text(s: string): seq<nat> {
    seq(|s|, i requires 0 <= i < |s| => s[i] as nat)
  }

  // The names of some kinds, each closed by a byte that no name has.
  ghost function Names(kinds: seq<PointKind>, n: nat): seq<nat>
    requires n <= |kinds|
  {
    if n == 0 then []
    else
      Names(kinds, n - 1)
      + Text(match kinds[n - 1] case Analog => "analog" case Binary => "binary" case Multistate => "multistate")
      + [0xff]
  }

  ghost function LittleEndian(count: nat, n: nat): seq<nat> {
    if n == 0 then [] else [count % 256] + LittleEndian(count / 256, n - 1)
  }

  // Hashing on from what some bytes came to.
  ghost function Mixed(hash: nat, bytes: seq<nat>, n: nat): nat
    requires n <= |bytes|
  {
    if n == 0 then hash else Mix(Mixed(hash, bytes, n - 1), bytes[n - 1])
  }

  lemma {:induction false} FnvIsMixed(bytes: seq<nat>, n: nat)
    requires n <= |bytes|
    ensures Fnv1a(bytes, n) == Mixed(FNV_OFFSET, bytes, n)
  {
    if n > 0 {
      FnvIsMixed(bytes, n - 1);
    }
  }

  lemma {:induction false} MixedPrefix(hash: nat, a: seq<nat>, b: seq<nat>, n: nat)
    requires n <= |a|
    ensures Mixed(hash, a + b, n) == Mixed(hash, a, n)
  {
    if n > 0 {
      hide Mix;
      MixedPrefix(hash, a, b, n - 1);
    }
  }

  lemma {:induction false} MixedConcat(hash: nat, a: seq<nat>, b: seq<nat>, n: nat)
    requires n <= |b|
    ensures Mixed(hash, a + b, |a| + n) == Mixed(Mixed(hash, a, |a|), b, n)
  {
    hide Mix;
    if n == 0 {
      MixedPrefix(hash, a, b, |a|);
    } else {
      MixedConcat(hash, a, b, n - 1);
      assert (a + b)[|a| + n - 1] == b[n - 1];
    }
  }

  lemma {:induction false} MixedText(hash: nat, s: string, n: nat)
    requires n <= |s|
    ensures Mixed(hash, Text(s), n) == MixText(hash, s, n)
  {
    if n > 0 {
      hide Mix;
      MixedText(hash, s, n - 1);
    }
  }

  lemma NamesStep(kinds: seq<PointKind>, n: nat)
    requires 0 < n <= |kinds|
    ensures Names(kinds, n) == Names(kinds, n - 1) + Text(kinds[n - 1].Name()) + [0xff]
  {
    hide Text;
  }

  lemma MixedThree(hash: nat, a: seq<nat>, b: seq<nat>, byte: nat, all: seq<nat>)
    requires all == a + b + [byte]
    ensures Mixed(hash, all, |all|) == Mix(Mixed(Mixed(hash, a, |a|), b, |b|), byte)
  {
    hide Mix;
    MixedPrefix(hash, a + b, [byte], |a + b|);
    MixedConcat(hash, a, b, |b|);
  }

  lemma {:induction false} MixedNames(kinds: seq<PointKind>, n: nat)
    requires n <= |kinds|
    ensures Mixed(FNV_OFFSET, Names(kinds, n), |Names(kinds, n)|) == MixKinds(kinds, n)
  {
    if n > 0 {
      hide Mix, Mixed, MixText, Text, PointKind.Name, Names;
      var before, name := Names(kinds, n - 1), kinds[n - 1].Name();
      MixedNames(kinds, n - 1);
      TextLength(name);
      MixedText(MixKinds(kinds, n - 1), name, |name|);
      NamesStep(kinds, n);
      MixedThree(FNV_OFFSET, before, Text(name), 0xff, Names(kinds, n));
    }
  }

  lemma TextLength(s: string)
    ensures |Text(s)| == |s|
  {
  }

  lemma {:induction false} MixedCount(hash: nat, count: nat, n: nat)
    ensures Mixed(hash, LittleEndian(count, n), |LittleEndian(count, n)|) == MixCount(hash, count, n)
    decreases n
  {
    if n > 0 {
      var rest := LittleEndian(count / 256, n - 1);
      MixedCount(Mix(hash, count % 256), count / 256, n - 1);
      assert Mixed(hash, [count % 256], 1) == Mix(hash, count % 256);
      hide Mix, Mixed;
      MixedConcat(hash, [count % 256], rest, |rest|);
    }
  }

  // Alphabetical, by the first letters, which differ.
  ghost predicate Alphabetical(kinds: seq<PointKind>) {
    forall i, j | 0 <= i < j < |kinds| :: kinds[i].Name()[0] <= kinds[j].Name()[0]
  }

  // The fingerprint is the FNV-1a hash of one byte string: the kind names in alphabetical order, and the
  // number of points in eight bytes.
  lemma FingerprintIsFnv1a(points: seq<DiscoveredPoint>)
    ensures exists kinds: seq<PointKind> ::
              && multiset(kinds) == multiset(KindsOf(points)) && Alphabetical(kinds)
              && var bytes := Names(kinds, |kinds|) + LittleEndian(|points| % 0x1_0000_0000_0000_0000, 8);
                 Fingerprint(points) == Fnv1a(bytes, |bytes|)
  {
    hide Fnv1a, Mixed, Names, LittleEndian, MixKinds, MixCount, SortKinds, KindsSorted;
    var kinds := SortKinds(KindsOf(points));
    SortKindsSorts(KindsOf(points));
    assert Alphabetical(kinds) by { SortedIsAlphabetical(kinds); }
    assert |kinds| == |multiset(kinds)| == |multiset(KindsOf(points))| == |points|;
    var names, count := Names(kinds, |kinds|), LittleEndian(|points| % U64, 8);
    MixedNames(kinds, |kinds|);
    MixedCount(MixKinds(kinds, |kinds|), |points| % U64, 8);
    MixedConcat(FNV_OFFSET, names, count, |count|);
    FnvIsMixed(names + count, |names + count|);
  }

  lemma SortedIsAlphabetical(kinds: seq<PointKind>)
    requires KindsSorted(kinds)
    ensures Alphabetical(kinds)
  {
  }

  // ----- group ids read back -----

  ghost predicate IsHexDigit(c: char) { '0' <= c <= '9' || 'a' <= c <= 'f' }

  ghost function HexDigitValue(c: char): nat
    requires IsHexDigit(c)
  {
    if c <= '9' then c as int - '0' as int else c as int - 'a' as int + 10
  }

  ghost function HexValue(s: string): nat
    requires forall c <- s :: IsHexDigit(c)
  {
    if s == "" then 0
    else
      var c := s[|s| - 1];
      assert c in s;
      16 * HexValue(s[..|s| - 1]) + HexDigitValue(c)
  }

  lemma HexDigitReads(d: nat)
    requires d < 16
    ensures IsHexDigit(HexDigit(d)) && HexDigitValue(HexDigit(d)) == d
  {
  }

  ghost function Pow16(k: nat): nat {
    if k == 0 then 1 else 16 * Pow16(k - 1)
  }

  lemma {:induction false} HexReads(n: nat, digits: nat)
    requires n < Pow16(digits)
    ensures |Hex(n, digits)| == digits && (forall c <- Hex(n, digits) :: IsHexDigit(c))
    ensures HexValue(Hex(n, digits)) == n
  {
    if digits > 0 {
      var front, c := Hex(n / 16, digits - 1), HexDigit(n % 16);
      HexReads(n / 16, digits - 1);
      HexDigitReads(n % 16);
      hide IsHexDigit, HexDigit, HexDigitValue;
      assert Hex(n, digits) == front + [c];
      assert (front + [c])[..digits - 1] == front;
    }
  }

  lemma FingerprintFits(points: seq<DiscoveredPoint>)
    ensures Fingerprint(points) < U64
  {
    hide Mix, MixKinds;
    var kinds := SortKinds(KindsOf(points));
    MixCountFits(MixKinds(kinds, |kinds|), |kinds| % U64, 8);
  }

  lemma {:induction false} MixCountFits(hash: nat, count: nat, n: nat)
    ensures n > 0 ==> MixCount(hash, count, n) < U64
    ensures n == 0 ==> MixCount(hash, count, n) == hash
    decreases n
  {
    if n > 0 {
      MixCountFits(Mix(hash, count % 256), count / 256, n - 1);
      MixFits(hash, count % 256);
    }
  }

  lemma MixFits(hash: nat, byte: nat)
    ensures Mix(hash, byte) < U64
  {
  }

  // The id of a group is `group-` and the fingerprint in sixteen hexadecimal digits, so devices share a
  // group exactly when they share a fingerprint.
  lemma GroupIdReads(fingerprint: nat)
    requires fingerprint < 0x1_0000_0000_0000_0000
    ensures var id := GroupNodeId(fingerprint);
            && |id| == 22 && id[..6] == "group-"
            && (forall c <- id[6..] :: IsHexDigit(c)) && HexValue(id[6..]) == fingerprint
  {
    LongSize();
    HexReads(fingerprint, 16);
    assert GroupNodeId(fingerprint)[6..] == Hex(fingerprint, 16);
  }

  lemma LongSize()
    ensures Pow16(16) == 0x1_0000_0000_0000_0000
  {
    FourDigits(0);
    FourDigits(4);
    FourDigits(8);
    FourDigits(12);
  }

  lemma FourDigits(k: nat)
    ensures Pow16(k + 4) == 0x1_0000 * Pow16(k)
  {
    assert Pow16(k + 1) == 16 * Pow16(k);
    assert Pow16(k + 2) == 16 * Pow16(k + 1);
    assert Pow16(k + 3) == 16 * Pow16(k + 2);
  }

  lemma SameGroupExactly(a: seq<DiscoveredPoint>, b: seq<DiscoveredPoint>)
    ensures GroupNodeId(Fingerprint(a)) == GroupNodeId(Fingerprint(b)) <==> Fingerprint(a) == Fingerprint(b)
  {
    hide Fingerprint, GroupNodeId, HexValue;
    FingerprintFits(a);
    FingerprintFits(b);
    GroupIdReads(Fingerprint(a));
    GroupIdReads(Fingerprint(b));
  }
}
