/** The packed hash of `ngx_hash.c`: `ngx_hash_init()` lays the elements of each bucket out in one piece of
    memory, `ngx_hash_find()` walks a bucket. */
module Hash {
  import opened Words
  import opened Arith

  /** A key with its hash and its value; `gone` stands for a key without data, which is passed over. */
  datatype Key = Key(name: seq<byte>, gone: bool, hash: nat, value: word)

  const CACHELINE: nat := 64
  const SHORT: nat := 0x1_0000

  /** ngx_align(). */
  function Align(n: nat, a: nat): nat
    requires a > 0
  {
    (n + a - 1) / a * a
  }

  /** NGX_HASH_ELT_SIZE(): the value, the length in two bytes, and the name, in whole words. */
  function EltSize(k: Key): nat { 8 + Align(|k.name| + 2, 8) }

  /** The key is in bucket `b` of `size` buckets. */
  predicate In(k: Key, b: nat, size: nat)
    requires size > 0
  {
    !k.gone && k.hash % size == b
  }

  /** The room that the first `n` keys take in bucket `b`. */
  function Sum(keys: seq<Key>, n: nat, b: nat, size: nat): nat
    requires n <= |keys| && size > 0
  {
    if n == 0 then 0 else Sum(keys, n - 1, b, size) + if In(keys[n - 1], b, size) then EltSize(keys[n - 1]) else 0
  }

  lemma {:induction false} SumMono(keys: seq<Key>, i: nat, j: nat, b: nat, size: nat)
    requires i <= j <= |keys| && size > 0
    ensures Sum(keys, i, b, size) <= Sum(keys, j, b, size)
    decreases j
  {
    if i < j {
      SumMono(keys, i, j - 1, b, size);
    }
  }

  lemma AlignUp(n: nat, a: nat)
    requires a > 0
    ensures n <= Align(n, a) < n + a && Align(n, a) % a == 0
  {
    DivRest(n + a - 1, a);
    DivMul((n + a - 1) / a, a);
  }

  lemma {:induction false} SumWords(keys: seq<Key>, n: nat, b: nat, size: nat)
    requires n <= |keys| && size > 0
    ensures Sum(keys, n, b, size) % 8 == 0
  {
    if n > 0 {
      SumWords(keys, n - 1, b, size);
      AlignUp(|keys[n - 1].name| + 2, 8);
    }
  }

  // ----- bytes

  /** A number in `n` bytes, the lowest first. */
  function Le(v: nat, n: nat): (s: seq<byte>)
    ensures |s| == n
  {
    if n == 0 then [] else [(v % 256) as byte] + Le(v / 256, n - 1)
  }

  function De(s: seq<byte>): nat { if s == [] then 0 else s[0] as nat + 256 * De(s[1..]) }

  function Pow256(n: nat): nat { if n == 0 then 1 else 256 * Pow256(n - 1) }

  lemma {:induction false} LeDe(v: nat, n: nat)
    requires v < Pow256(n)
    ensures De(Le(v, n)) == v
  {
    if n > 0 {
      LeDe(v / 256, n - 1);
    }
  }

  /** ngx_tolower(), ngx_strlow(). */
  function Lower(c: byte): byte { if 65 <= c <= 90 then c + 32 else c }

  function Low(s: seq<byte>): (r: seq<byte>)
    ensures |r| == |s| && forall i :: 0 <= i < |s| ==> r[i] == Lower(s[i])
  {
    seq(|s|, i requires 0 <= i < |s| => Lower(s[i]))
  }

  /** "@AMZ[amz" becomes "@amz[amz". */
  lemma LowFolds()
    ensures Low([64, 65, 77, 90, 91, 97, 109, 122]) == [64, 97, 109, 122, 91, 97, 109, 122]
  {
  }

  /** An element for the key is laid out from `p` on. */
  predicate EltAt(mem: seq<byte>, p: nat, k: Key) {
    && p + 10 + |k.name| <= |mem|
    && De(mem[p..p + 8]) == k.value && De(mem[p + 8..p + 10]) == |k.name|
    && mem[p + 10..p + 10 + |k.name|] == Low(k.name)
  }

  // ----- the layout

  /** Every bucket, with the word that ends it and in whole cache lines, is shorter than 2^16 bytes. */
  predicate Fits(keys: seq<Key>, size: nat)
    requires size > 0
  {
    forall b: nat :: b < size ==> Room(keys, b, size) < SHORT
  }

  /** The memory for a bucket. */
  function Room(keys: seq<Key>, b: nat, size: nat): nat
    requires size > 0
  {
    var n := Sum(keys, |keys|, b, size);
    if n == 0 then 0 else Align(8 + n, CACHELINE)
  }

  /** Where bucket `b` starts. */
  function Start(keys: seq<Key>, b: nat, size: nat): nat
    requires size > 0
  {
    if b == 0 then 0 else Start(keys, b - 1, size) + Room(keys, b - 1, size)
  }

  lemma {:induction false} StartMono(keys: seq<Key>, b: nat, c: nat, size: nat)
    requires b < c && size > 0
    ensures Start(keys, b, size) + Room(keys, b, size) <= Start(keys, c, size)
    decreases c
  {
    if b < c - 1 {
      StartMono(keys, b, c - 1, size);
    }
  }

  lemma {:induction false} StartLines(keys: seq<Key>, b: nat, size: nat)
    requires size > 0
    ensures Start(keys, b, size) % CACHELINE == 0
  {
    if b > 0 {
      StartLines(keys, b - 1, size);
      AlignUp(8 + Sum(keys, |keys|, b - 1, size), CACHELINE);
    }
  }

  /** Where key `i` is. */
  function Place(keys: seq<Key>, i: nat, size: nat): nat
    requires i < |keys| && size > 0
  {
    var b := keys[i].hash % size;
    Start(keys, b, size) + Sum(keys, i, b, size)
  }

  /** The word behind the elements of bucket `b`. */
  function End(keys: seq<Key>, b: nat, size: nat): nat
    requires size > 0
  {
    Start(keys, b, size) + Sum(keys, |keys|, b, size)
  }

  /** The place of a key lies in its bucket, before the end; neither elements nor buckets are longer than rounding
      to words and cache lines makes them. */
  lemma PlaceInside(keys: seq<Key>, i: nat, size: nat)
    requires i < |keys| && size > 0 && !keys[i].gone
    ensures var b := keys[i].hash % size;
            && Start(keys, b, size) <= Place(keys, i, size)
            && Place(keys, i, size) + EltSize(keys[i]) <= End(keys, b, size)
            && End(keys, b, size) + 8 <= Start(keys, b, size) + Room(keys, b, size)
            && 10 + |keys[i].name| <= EltSize(keys[i]) < 18 + |keys[i].name|
            && Room(keys, b, size) < Sum(keys, |keys|, b, size) + 8 + CACHELINE
  {
    var b := keys[i].hash % size;
    SumMono(keys, i + 1, |keys|, b, size);
    AlignUp(8 + Sum(keys, |keys|, b, size), CACHELINE);
    AlignUp(|keys[i].name| + 2, 8);
  }

  /** Elements do not overlap. */
  lemma PlacesApart(keys: seq<Key>, i: nat, j: nat, size: nat)
    requires i < |keys| && j < |keys| && i != j && size > 0 && !keys[i].gone && !keys[j].gone
    ensures Place(keys, i, size) + EltSize(keys[i]) <= Place(keys, j, size)
         || Place(keys, j, size) + EltSize(keys[j]) <= Place(keys, i, size)
  {
    var b, c := keys[i].hash % size, keys[j].hash % size;
    PlaceInside(keys, i, size);
    PlaceInside(keys, j, size);
    if b < c {
      StartMono(keys, b, c, size);
    } else if c < b {
      StartMono(keys, c, b, size);
    } else if i < j {
      SumMono(keys, i + 1, j, b, size);
    } else {
      SumMono(keys, j + 1, i, b, size);
    }
  }

  /** The end of a bucket lies behind its elements, and is in nobody else's way. */
  lemma EndApart(keys: seq<Key>, i: nat, b: nat, size: nat)
    requires i < |keys| && size > 0 && !keys[i].gone && Sum(keys, |keys|, b, size) > 0
    ensures Place(keys, i, size) + EltSize(keys[i]) <= End(keys, b, size)
         || End(keys, b, size) + 8 <= Place(keys, i, size)
  {
    var c := keys[i].hash % size;
    PlaceInside(keys, i, size);
    AlignUp(8 + Sum(keys, |keys|, b, size), CACHELINE);
    if b < c {
      StartMono(keys, b, c, size);
    } else if c < b {
      StartMono(keys, c, b, size);
    }
  }

  lemma EndsApart(keys: seq<Key>, b: nat, c: nat, size: nat)
    requires size > 0 && b < c && Sum(keys, |keys|, b, size) > 0
    ensures End(keys, b, size) + 8 <= End(keys, c, size)
  {
    AlignUp(8 + Sum(keys, |keys|, b, size), CACHELINE);
    StartMono(keys, b, c, size);
  }

  // ----- writing

  function Spliced(m: seq<byte>, p: nat, s: seq<byte>): (r: seq<byte>)
    requires p + |s| <= |m|
    ensures |r| == |m|
  {
    m[..p] + s + m[p + |s|..]
  }

  function EltBytes(k: Key): (s: seq<byte>)
    ensures |s| == 10 + |k.name|
  {
    Le(k.value, 8) + Le(|k.name|, 2) + Low(k.name)
  }

  lemma SplicedAt(m: seq<byte>, p: nat, s: seq<byte>, i: nat, j: nat)
    requires p + |s| <= |m| && i <= j <= |s|
    ensures Spliced(m, p, s)[p + i..p + j] == s[i..j]
  {
  }

  lemma SplicedElsewhere(m: seq<byte>, p: nat, s: seq<byte>, i: nat, j: nat)
    requires p + |s| <= |m| && i <= j <= |m| && (j <= p || p + |s| <= i)
    ensures Spliced(m, p, s)[i..j] == m[i..j]
  {
  }

  lemma SplicedElt(m: seq<byte>, p: nat, k: Key)
    requires p + 10 + |k.name| <= |m| && |k.name| < SHORT
    ensures EltAt(Spliced(m, p, EltBytes(k)), p, k)
  {
    var s := EltBytes(k);
    assert Pow256(8) == WORD_SIZE && Pow256(2) == SHORT by {
      assert Pow256(0) == 1 && Pow256(1) == 256 && Pow256(2) == SHORT && Pow256(3) == 0x100_0000
          && Pow256(4) == 0x1_0000_0000;
      assert Pow256(5) == 0x100_0000_0000 && Pow256(6) == 0x1_0000_0000_0000 && Pow256(7) == 0x100_0000_0000_0000;
    }
    LeDe(k.value, 8);
    LeDe(|k.name|, 2);
    hide Le, De, Low, Spliced, Pow256;
    SplicedAt(m, p, s, 0, 8);
    SplicedAt(m, p, s, 8, 10);
    SplicedAt(m, p, s, 10, |s|);
    assert s[0..8] == Le(k.value, 8) && s[8..10] == Le(|k.name|, 2) && s[10..] == Low(k.name);
    assert p + 0 == p;
  }

  lemma EltKept(m: seq<byte>, p: nat, s: seq<byte>, q: nat, k: Key)
    requires p + |s| <= |m| && EltAt(m, q, k) && (q + 10 + |k.name| <= p || p + |s| <= q)
    ensures EltAt(Spliced(m, p, s), q, k)
  {
    hide Spliced, De, Low;
    SplicedElsewhere(m, p, s, q, q + 8);
    SplicedElsewhere(m, p, s, q + 8, q + 10);
    SplicedElsewhere(m, p, s, q + 10, q + 10 + |k.name|);
  }

  method Write(mem: array<byte>, p: nat, s: seq<byte>)
    requires p + |s| <= mem.Length
    modifies mem
    ensures mem[..] == Spliced(old(mem[..]), p, s)
  {
    var i := 0;
    while i < |s|
      invariant i <= |s| && mem[..] == Spliced(old(mem[..]), p, s[..i])
    {
      ghost var m := mem[..];
      mem[p + i] := s[i];
      SplicedMore(old(mem[..]), m, mem[..], p, s, i);
      i := i + 1;
    }
    assert s[..i] == s;
  }

  lemma SplicedMore(m: seq<byte>, m1: seq<byte>, m2: seq<byte>, p: nat, s: seq<byte>, i: nat)
    requires p + |s| <= |m| && i < |s| && m1 == Spliced(m, p, s[..i]) && m2 == m1[p + i := s[i]]
    ensures m2 == Spliced(m, p, s[..i + 1])
  {
    assert s[..i + 1] == s[..i] + [s[i]];
  }

  // ----- choosing the number of buckets

  /** The number of buckets the search starts with. */
  function StartSize(n: nat, maxSize: nat, limit: nat): nat
    requires limit >= 16
  {
    if maxSize > 10000 && n > 0 && maxSize / n < 100 then maxSize - 1000
    else if n / (limit / 16) > 0 then n / (limit / 16) else 1
  }

  /** How the search sees a number of buckets: it adds up in 16 bits. */
  ghost predicate Accepts(keys: seq<Key>, n: nat, size: nat, limit: nat)
    requires size > 0 && n <= |keys|
  {
    forall i: nat :: i < n && !keys[i].gone ==> Sum(keys, i + 1, keys[i].hash % size, size) % SHORT <= limit % SHORT
  }

  ghost predicate Rejected(keys: seq<Key>, size: nat, limit: nat) { size > 0 && !Accepts(keys, |keys|, size, limit) }

  /** Every bucket has room for its keys. */
  ghost predicate Roomy(keys: seq<Key>, size: nat, limit: nat)
    requires size > 0
  {
    forall b: nat :: b < size ==> Sum(keys, |keys|, b, size) <= limit
  }

  /** All numbers of buckets in a range are rejected. */
  ghost predicate AllRejected(keys: seq<Key>, low: nat, high: nat, limit: nat) {
    forall s: nat :: low <= s < high ==> Rejected(keys, s, limit)
  }

  lemma ShortAdd(a: nat, b: nat)
    ensures (a % SHORT + b) % SHORT == (a + b) % SHORT
  {
  }

  /** Whether a number of buckets will do. */
  method Test(keys: seq<Key>, size: nat, limit: nat) returns (good: bool)
    requires size > 0
    ensures good <==> Accepts(keys, |keys|, size, limit)
  {
    hide EltSize;
    var test := new nat[size](_ => 0);
    var n := 0;
    while n < |keys|
      invariant n <= |keys| && Accepts(keys, n, size, limit)
      invariant forall b: nat :: b < size ==> test[b] == Sum(keys, n, b, size) % SHORT
    {
      if keys[n].gone {
        n := n + 1;
        continue;
      }
      var key := keys[n].hash % size;
      ShortAdd(Sum(keys, n, key, size), EltSize(keys[n]));
      test[key] := (test[key] + EltSize(keys[n])) % SHORT;
      assert test[key] == Sum(keys, n + 1, key, size) % SHORT;
      if test[key] > limit % SHORT {
        return false;
      }
      n := n + 1;
    }
    return true;
  }

  /** The first half of ngx_hash_init(): the fewest buckets from the start on that seem to do, or else as many
      as allowed. */
  method ChooseSize(keys: seq<Key>, maxSize: nat, bucketSize: nat) returns (ok: bool, size: nat, optimal: bool)
    requires bucketSize >= 24
    ensures ok <==> maxSize > 0 && forall n: nat :: n < |keys| ==> EltSize(keys[n]) + 8 <= bucketSize
    ensures ok ==> 0 < size <= maxSize
    ensures ok && optimal ==>
              Accepts(keys, |keys|, size, bucketSize - 8) && StartSize(|keys|, maxSize, bucketSize - 8) <= size
    ensures ok ==> AllRejected(keys, StartSize(|keys|, maxSize, bucketSize - 8),
                               if optimal then size else maxSize + 1, bucketSize - 8)
    ensures ok && !optimal ==> size == maxSize
  {
    if maxSize == 0 {
      return false, 0, false;
    }
    var n := 0;
    while n < |keys|
      invariant n <= |keys| && forall i: nat :: i < n ==> EltSize(keys[i]) + 8 <= bucketSize
    {
      if bucketSize < EltSize(keys[n]) + 8 {
        return false, 0, false;
      }
      n := n + 1;
    }
    hide Accepts;
    var limit := bucketSize - 8;
    size := StartSize(|keys|, maxSize, limit);
    while size <= maxSize
      invariant size > 0 && AllRejected(keys, StartSize(|keys|, maxSize, limit), size, limit)
      invariant StartSize(|keys|, maxSize, limit) <= size
      invariant StartSize(|keys|, maxSize, limit) <= maxSize ==> size <= maxSize + 1
    {
      var good := Test(keys, size, limit);
      if good {
        return true, size, true;
      }
      size := size + 1;
    }
    return true, maxSize, false;
  }

  /** With buckets of less than half of 2^16 bytes the search sees what there is: a number of buckets is
      accepted just when every bucket has room, and then the layout can be built. */
  lemma AcceptedFits(keys: seq<Key>, size: nat, bucketSize: nat)
    requires size > 0 && 24 <= bucketSize && 2 * (bucketSize - 8) < SHORT
    requires forall n: nat :: n < |keys| ==> EltSize(keys[n]) + 8 <= bucketSize
    ensures Accepts(keys, |keys|, size, bucketSize - 8) <==> Roomy(keys, size, bucketSize - 8)
    ensures Accepts(keys, |keys|, size, bucketSize - 8) ==> Fits(keys, size)
  {
    hide Accepts, Sum, Room;
    if Accepts(keys, |keys|, size, bucketSize - 8) {
      forall b: nat | b < size
        ensures Sum(keys, |keys|, b, size) <= bucketSize - 8 && Room(keys, b, size) < SHORT
      {
        AcceptedRoom(keys, size, bucketSize, b);
      }
    }
    if Roomy(keys, size, bucketSize - 8) {
      RoomAccepted(keys, size, bucketSize);
    }
  }

  lemma AcceptedRoom(keys: seq<Key>, size: nat, bucketSize: nat, b: nat)
    requires size > 0 && 24 <= bucketSize && 2 * (bucketSize - 8) < SHORT && b < size
    requires forall n: nat :: n < |keys| ==> EltSize(keys[n]) + 8 <= bucketSize
    requires Accepts(keys, |keys|, size, bucketSize - 8)
    ensures Sum(keys, |keys|, b, size) <= bucketSize - 8 && Room(keys, b, size) < SHORT
  {
    hide Accepts;
    AcceptedSum(keys, |keys|, size, bucketSize - 8, b);
    AlignUp(8 + Sum(keys, |keys|, b, size), CACHELINE);
  }

  lemma RoomAccepted(keys: seq<Key>, size: nat, bucketSize: nat)
    requires size > 0 && 24 <= bucketSize && 2 * (bucketSize - 8) < SHORT
    requires Roomy(keys, size, bucketSize - 8)
    ensures Accepts(keys, |keys|, size, bucketSize - 8)
  {
    forall i: nat | i < |keys| && !keys[i].gone
      ensures Sum(keys, i + 1, keys[i].hash % size, size) % SHORT <= bucketSize - 8
    {
      SumMono(keys, i + 1, |keys|, keys[i].hash % size, size);
    }
  }

  lemma {:induction false} AcceptedSum(keys: seq<Key>, n: nat, size: nat, limit: nat, b: nat)
    requires size > 0 && n <= |keys| && Accepts(keys, n, size, limit) && b < size && 2 * limit < SHORT
    requires forall i: nat :: i < |keys| ==> EltSize(keys[i]) <= limit
    ensures Sum(keys, n, b, size) <= limit
  {
    hide EltSize;
    if n > 0 {
      AcceptedSum(keys, n - 1, size, limit, b);
      if !keys[n - 1].gone && keys[n - 1].hash % size == b {
        assert Sum(keys, n - 1 + 1, keys[n - 1].hash % size, size) % SHORT <= limit % SHORT;
      }
    }
  }

  /** What the search sees is what there is: for keys that each fit in a bucket, a number of buckets is accepted
      just when every bucket has room. */
  ghost predicate Exact(keys: seq<Key>, size: nat, bucketSize: nat)
    requires bucketSize >= 24
  {
    size > 0 && (forall n: nat :: n < |keys| ==> EltSize(keys[n]) + 8 <= bucketSize) ==>
      (Accepts(keys, |keys|, size, bucketSize - 8) <==> Roomy(keys, size, bucketSize - 8))
  }

  /** The search is exact for all keys if and only if buckets are smaller than 2^15 + 8 bytes. */
  lemma SearchExact(bucketSize: nat)
    requires bucketSize >= 24
    ensures (forall keys: seq<Key>, size: nat :: Exact(keys, size, bucketSize)) <==> 2 * (bucketSize - 8) < SHORT
  {
    if 2 * (bucketSize - 8) < SHORT {
      forall keys: seq<Key>, size: nat
        ensures Exact(keys, size, bucketSize)
      {
        if size > 0 && forall n: nat :: n < |keys| ==> EltSize(keys[n]) + 8 <= bucketSize {
          AcceptedFits(keys, size, bucketSize);
        }
      }
    } else {
      var keys := SearchInexact(bucketSize);
      assert !Exact(keys, 1, bucketSize);
    }
  }

  /** For larger buckets there are keys that wrap the sum around: a single bucket is accepted without having room
      for them. */
  lemma SearchInexact(bucketSize: nat) returns (keys: seq<Key>)
    requires 2 * (bucketSize - 8) >= SHORT
    ensures forall n: nat :: n < |keys| ==> EltSize(keys[n]) + 8 <= bucketSize
    ensures Accepts(keys, |keys|, 1, bucketSize - 8) && !Roomy(keys, 1, bucketSize - 8)
  {
    var limit := bucketSize - 8;
    var elt, n := if limit < SHORT then SHORT / 2 else SHORT, if limit < SHORT then 2 else limit / SHORT + 1;
    var k := Key(seq(elt - 10, _ => 0), false, 0, 1);
    assert EltSize(k) == elt;
    keys := seq(n, _ => k);
    forall i: nat | i <= n
      ensures Sum(keys, i, 0, 1) == i * elt
    {
      SumOfSame(keys, k, i);
    }
    assert Sum(keys, n, 0, 1) > limit;
  }

  lemma {:induction false} SumOfSame(keys: seq<Key>, k: Key, n: nat)
    requires n <= |keys| && !k.gone && forall i :: 0 <= i < |keys| ==> keys[i] == k
    ensures Sum(keys, n, 0, 1) == n * EltSize(k)
  {
    hide EltSize;
    if n > 0 {
      SumOfSame(keys, k, n - 1);
    }
  }

  /** The other failure: where the limit is a multiple of 2^16 it counts as zero, and every number of buckets is
      refused for any key that is shorter than that, even for a single one in a bucket of its own. */
  lemma SearchRefuses(keys: seq<Key>, i: nat, size: nat, limit: nat)
    requires size > 0 && limit % SHORT == 0 && i < |keys| && !keys[i].gone && EltSize(keys[i]) % SHORT != 0
    ensures !Accepts(keys, |keys|, size, limit)
    ensures |keys| == 1 && EltSize(keys[0]) <= limit ==> Roomy(keys, size, limit)
  {
    hide Accepts, Roomy, EltSize;
    var b := keys[i].hash % size;
    assert Sum(keys, i + 1, b, size) == Sum(keys, i, b, size) + EltSize(keys[i]);
    if Accepts(keys, |keys|, size, limit) {
      AcceptedWhole(keys, i, size, limit, b);
      AcceptedWhole(keys, i + 1, size, limit, b);
    }
    if |keys| == 1 && EltSize(keys[0]) <= limit {
      SingleRoomy(keys, size, limit);
    }
  }

  lemma SingleRoomy(keys: seq<Key>, size: nat, limit: nat)
    requires size > 0 && |keys| == 1 && EltSize(keys[0]) <= limit
    ensures Roomy(keys, size, limit)
  {
    hide EltSize;
    forall b: nat | b < size
      ensures Sum(keys, 1, b, size) <= limit
    {
      assert Sum(keys, 0, b, size) == 0;
    }
  }

  lemma {:induction false} AcceptedWhole(keys: seq<Key>, n: nat, size: nat, limit: nat, b: nat)
    requires size > 0 && n <= |keys| && Accepts(keys, |keys|, size, limit) && limit % SHORT == 0 && b < size
    ensures Sum(keys, n, b, size) % SHORT == 0
  {
    hide EltSize;
    if n > 0 {
      AcceptedWhole(keys, n - 1, size, limit, b);
      if !keys[n - 1].gone && keys[n - 1].hash % size == b {
        assert Sum(keys, n - 1 + 1, keys[n - 1].hash % size, size) % SHORT <= limit % SHORT;
      }
    }
  }

  /** With larger buckets the sums wrap around: a single bucket is accepted for two keys that it cannot hold. */
  lemma SearchWraps(k: Key, keys: seq<Key>)
    requires !k.gone && |k.name| == 39990 && keys == [k, k]
    ensures EltSize(k) + 8 <= 50008 && Accepts(keys, 2, 1, 50008 - 8) && !Fits(keys, 1)
  {
    assert EltSize(k) == 40000;
    assert Sum(keys, 0, 0, 1) == 0;
    assert Sum(keys, 1, 0, 1) == 40000;
    assert Sum(keys, 2, 0, 1) == 80000;
    AlignUp(80008, CACHELINE);
    assert Room(keys, 0, 1) >= SHORT;
  }

  // ----- building

  /** The first `n` keys are laid out. */
  ghost predicate LaidTo(mem: seq<byte>, keys: seq<Key>, n: nat, size: nat)
    requires n <= |keys| && size > 0
  {
    forall i: nat :: i < n && !keys[i].gone ==> EltAt(mem, Place(keys, i, size), keys[i])
  }

  /** A word of zeros. */
  predicate EndAt(mem: seq<byte>, e: nat) { e + 8 <= |mem| && De(mem[e..e + 8]) == 0 }

  /** The first `n` buckets are ended. */
  ghost predicate EndedTo(mem: seq<byte>, keys: seq<Key>, n: nat, size: nat)
    requires size > 0
  {
    forall b: nat :: b < n && Sum(keys, |keys|, b, size) > 0 ==> EndAt(mem, End(keys, b, size))
  }

  ghost predicate Placed(buckets: seq<Option<nat>>, keys: seq<Key>, n: nat, size: nat)
    requires size > 0
  {
    |buckets| == size && n <= size
    && forall b: nat :: b < size ==>
         buckets[b] == if b < n && Sum(keys, |keys|, b, size) > 0 then Some(Start(keys, b, size)) else None
  }

  /** The memory holds the keys, bucket by bucket. */
  ghost predicate Packed(mem: seq<byte>, buckets: seq<Option<nat>>, keys: seq<Key>, size: nat) {
    && size > 0 && Placed(buckets, keys, size, size)
    && LaidTo(mem, keys, |keys|, size) && EndedTo(mem, keys, size, size)
  }

  /** The place of an element lies in the memory. */
  lemma PlaceFits(keys: seq<Key>, i: nat, size: nat)
    requires i < |keys| && size > 0 && !keys[i].gone && Fits(keys, size)
    ensures Place(keys, i, size) + 10 + |keys[i].name| <= Start(keys, size, size) && |keys[i].name| < SHORT
    ensures Sum(keys, |keys|, keys[i].hash % size, size) > 0
  {
    var b := keys[i].hash % size;
    PlaceInside(keys, i, size);
    StartMono(keys, b, size, size);
    assert Room(keys, b, size) < SHORT;
  }

  lemma LaidMore(m: seq<byte>, keys: seq<Key>, n: nat, size: nat)
    requires n < |keys| && size > 0 && LaidTo(m, keys, n, size) && !keys[n].gone && |keys[n].name| < SHORT
    requires Place(keys, n, size) + 10 + |keys[n].name| <= |m|
    ensures LaidTo(Spliced(m, Place(keys, n, size), EltBytes(keys[n])), keys, n + 1, size)
  {
    hide Spliced, EltAt, Place, EltBytes;
    var p, s := Place(keys, n, size), EltBytes(keys[n]);
    SplicedElt(m, p, keys[n]);
    forall i: nat | i < n && !keys[i].gone
      ensures EltAt(Spliced(m, p, s), Place(keys, i, size), keys[i])
    {
      PlacesApart(keys, i, n, size);
      PlaceInside(keys, i, size);
      PlaceInside(keys, n, size);
      EltKept(m, p, s, Place(keys, i, size), keys[i]);
    }
  }

  /** The word that ends bucket `b` is written. */
  lemma EndedMore(m: seq<byte>, keys: seq<Key>, b: nat, size: nat)
    requires size > 0 && b < size && Sum(keys, |keys|, b, size) > 0 && End(keys, b, size) + 8 <= |m|
    requires LaidTo(m, keys, |keys|, size) && EndedTo(m, keys, b, size)
    ensures LaidTo(Spliced(m, End(keys, b, size), Le(0, 8)), keys, |keys|, size)
    ensures EndedTo(Spliced(m, End(keys, b, size), Le(0, 8)), keys, b + 1, size)
  {
    hide Spliced, EltAt, Place, End, Le, De, Sum;
    var e, s := End(keys, b, size), Le(0, 8);
    forall i: nat | i < |keys| && !keys[i].gone
      ensures EltAt(Spliced(m, e, s), Place(keys, i, size), keys[i])
    {
      EndApart(keys, i, b, size);
      PlaceInside(keys, i, size);
      EltKept(m, e, s, Place(keys, i, size), keys[i]);
    }
    forall c: nat | c < b + 1 && Sum(keys, |keys|, c, size) > 0
      ensures EndAt(Spliced(m, e, s), End(keys, c, size))
    {
      if c < b {
        EndsApart(keys, c, b, size);
        SplicedElsewhere(m, e, s, End(keys, c, size), End(keys, c, size) + 8);
      } else {
        SplicedAt(m, e, s, 0, 8);
        ZeroWord();
        assert e + 0 == e && s[0..8] == s;
      }
    }
  }

  lemma ZeroWord()
    ensures De(Le(0, 8)) == 0
  {
    assert Pow256(8) > 0;
    LeDe(0, 8);
  }

  /** The rooms of the buckets, in 16 bits. */
  method Rooms(keys: seq<Key>, size: nat) returns (test: array<nat>, len: nat)
    requires size > 0 && Fits(keys, size)
    ensures fresh(test) && test.Length == size && len == Start(keys, size, size)
    ensures forall b: nat :: b < size ==> test[b] == if Sum(keys, |keys|, b, size) == 0 then 8 else Room(keys, b, size)
  {
    hide EltSize, Align, Fits, Sum, Room;
    test := Measure(keys, size);
    len := 0;
    StartZero(keys, size);
    var i := 0;
    while i < size
      invariant i <= size && len == Start(keys, i, size)
      invariant forall b: nat :: i <= b < size ==> test[b] == 8 + Sum(keys, |keys|, b, size)
      invariant forall b: nat :: b < i ==> test[b] == if Sum(keys, |keys|, b, size) == 0 then 8 else Room(keys, b, size)
    {
      RoomFor(keys, |keys|, i, size);
      RoomIs(keys, i, size);
      StartNext(keys, i, size);
      if test[i] == 8 {
        i := i + 1;
        continue;
      }
      test[i] := Align(test[i], CACHELINE) % SHORT;
      len := len + test[i];
      i := i + 1;
    }
  }

  lemma RoomIs(keys: seq<Key>, b: nat, size: nat)
    requires size > 0
    ensures Room(keys, b, size) ==
            if Sum(keys, |keys|, b, size) == 0 then 0 else Align(8 + Sum(keys, |keys|, b, size), CACHELINE)
  {
  }

  method Measure(keys: seq<Key>, size: nat) returns (test: array<nat>)
    requires size > 0 && Fits(keys, size)
    ensures fresh(test) && test.Length == size && forall b: nat :: b < size ==>
            test[b] == 8 + Sum(keys, |keys|, b, size)
  {
    hide EltSize, Align, Fits;
    test := new nat[size](_ => 8);
    var n := 0;
    while n < |keys|
      invariant n <= |keys| && forall b: nat :: b < size ==> test[b] == 8 + Sum(keys, n, b, size)
    {
      if keys[n].gone {
        n := n + 1;
        continue;
      }
      var key := keys[n].hash % size;
      RoomFor(keys, n + 1, key, size);
      test[key] := (test[key] + EltSize(keys[n])) % SHORT;
      n := n + 1;
    }
  }

  lemma RoomFor(keys: seq<Key>, n: nat, b: nat, size: nat)
    requires size > 0 && b < size && n <= |keys| && Fits(keys, size)
    ensures 8 + Sum(keys, n, b, size) < SHORT && Room(keys, b, size) < SHORT
    ensures Sum(keys, n, b, size) > 0 ==> Room(keys, b, size) > 8
  {
    assert Room(keys, b, size) < SHORT;
    SumMono(keys, n, |keys|, b, size);
    AlignUp(8 + Sum(keys, |keys|, b, size), CACHELINE);
  }

  /** The second half of ngx_hash_init(): the elements are laid out. */
  method Build(keys: seq<Key>, size: nat) returns (mem: array<byte>, buckets: array<Option<nat>>)
    requires size > 0 && Fits(keys, size)
    ensures fresh(mem) && fresh(buckets) && Packed(mem[..], buckets[..], keys, size)
    ensures mem.Length == Start(keys, size, size)
  {
    hide EltSize, Align, EltAt, Spliced, Start, EltBytes, Le, LaidTo, EndedTo, Fits;
    var test, len := Rooms(keys, size);
    mem := new byte[len](_ => 0);
    buckets := new Option<nat>[size](_ => None);
    StartZero(keys, size);
    var elts, i := 0, 0;
    while i < size
      invariant i <= size && elts == Start(keys, i, size) && Placed(buckets[..], keys, i, size)
      invariant forall b: nat :: b < size ==>
                  test[b] == if Sum(keys, |keys|, b, size) == 0 then 8 else Room(keys, b, size)
    {
      StartNext(keys, i, size);
      RoomFor(keys, |keys|, i, size);
      if test[i] == 8 {
        i := i + 1;
        continue;
      }
      buckets[i] := Some(elts);
      elts := elts + test[i];
      i := i + 1;
    }
    i := 0;
    while i < size
      invariant i <= size && forall b: nat :: b < i ==> test[b] == 0
      modifies test
    {
      test[i] := 0;
      i := i + 1;
    }
    LayOut(keys, size, mem, buckets, test);
    Terminate(keys, size, mem, buckets, test);
  }

  lemma StartZero(keys: seq<Key>, size: nat)
    requires size > 0
    ensures Start(keys, 0, size) == 0
  {
  }

  lemma StartNext(keys: seq<Key>, b: nat, size: nat)
    requires size > 0
    ensures Start(keys, b + 1, size) == Start(keys, b, size) + Room(keys, b, size)
  {
  }

  method LayOut(keys: seq<Key>, size: nat, mem: array<byte>, buckets: array<Option<nat>>, test: array<nat>)
    requires size > 0 && Fits(keys, size) && mem.Length == Start(keys, size, size)
             && Placed(buckets[..], keys, size, size)
    requires test.Length == size && forall b: nat :: b < size ==> test[b] == 0
    modifies mem, test
    ensures LaidTo(mem[..], keys, |keys|, size)
    ensures forall b: nat :: b < size ==> test[b] == Sum(keys, |keys|, b, size)
    requires buckets.Length == size
  {
    hide EltSize, Align, EltAt, Spliced, Start, EltBytes, Fits, Sum, Place, Placed, LaidTo;
    LaidNone(mem[..], keys, size);
    var n := 0;
    while n < |keys|
      invariant n <= |keys| && LaidTo(mem[..], keys, n, size)
      invariant forall b: nat :: b < size ==> test[b] == Sum(keys, n, b, size)
    {
      SumStep(keys, n, size);
      if keys[n].gone {
        LaidGone(mem[..], keys, n, size);
        n := n + 1;
        continue;
      }
      var key := keys[n].hash % size;
      PlaceFits(keys, n, size);
      BucketOf(buckets[..], keys, n, size);
      assert buckets[..][key] == buckets[key];
      RoomFor(keys, n + 1, key, size);
      ghost var m := mem[..];
      Write(mem, buckets[key].value + test[key], EltBytes(keys[n]));
      LaidMore(m, keys, n, size);
      test[key] := (test[key] + EltSize(keys[n])) % SHORT;
      n := n + 1;
    }
  }

  /** One more key takes room in its own bucket only. */
  lemma SumStep(keys: seq<Key>, n: nat, size: nat)
    requires n < |keys| && size > 0
    ensures forall b: nat :: Sum(keys, n + 1, b, size) ==
              Sum(keys, n, b, size) + if !keys[n].gone && keys[n].hash % size == b then EltSize(keys[n]) else 0
  {
    hide EltSize;
  }

  lemma LaidNone(m: seq<byte>, keys: seq<Key>, size: nat)
    requires size > 0
    ensures LaidTo(m, keys, 0, size) && forall b: nat :: Sum(keys, 0, b, size) == 0
  {
  }

  lemma LaidGone(m: seq<byte>, keys: seq<Key>, n: nat, size: nat)
    requires n < |keys| && size > 0 && keys[n].gone && LaidTo(m, keys, n, size)
    ensures LaidTo(m, keys, n + 1, size)
  {
    hide EltAt, Place;
  }

  lemma BucketOf(buckets: seq<Option<nat>>, keys: seq<Key>, i: nat, size: nat)
    requires size > 0 && Placed(buckets, keys, size, size) && i < |keys|
             && Sum(keys, |keys|, keys[i].hash % size, size) > 0
    ensures |buckets| == size && buckets[keys[i].hash % size] == Some(Start(keys, keys[i].hash % size, size))
    ensures Place(keys, i, size) == Start(keys, keys[i].hash % size, size) + Sum(keys, i, keys[i].hash % size, size)
  {
  }

  method Terminate(keys: seq<Key>, size: nat, mem: array<byte>, buckets: array<Option<nat>>, test: array<nat>)
    requires size > 0 && Fits(keys, size) && mem.Length == Start(keys, size, size)
             && Placed(buckets[..], keys, size, size)
    requires buckets.Length == test.Length == size && forall b: nat :: b < size ==>
             test[b] == Sum(keys, |keys|, b, size)
    requires LaidTo(mem[..], keys, |keys|, size)
    modifies mem
    ensures LaidTo(mem[..], keys, |keys|, size) && EndedTo(mem[..], keys, size, size)
  {
    hide EltAt, Spliced, Start, Fits, LaidTo, Sum, Le, De;
    var i := 0;
    while i < size
      invariant i <= size && LaidTo(mem[..], keys, |keys|, size) && EndedTo(mem[..], keys, i, size)
    {
      assert buckets[..][i] == buckets[i];
      if buckets[i] == None {
        i := i + 1;
        continue;
      }
      EndFits(keys, i, size);
      ghost var m := mem[..];
      Write(mem, buckets[i].value + test[i], Le(0, 8));
      EndedMore(m, keys, i, size);
      i := i + 1;
    }
  }

  lemma EndFits(keys: seq<Key>, b: nat, size: nat)
    requires size > 0 && b < size && Sum(keys, |keys|, b, size) > 0
    ensures End(keys, b, size) + 8 <= Start(keys, size, size)
            && End(keys, b, size) == Start(keys, b, size) + Sum(keys, |keys|, b, size)
  {
    AlignUp(8 + Sum(keys, |keys|, b, size), CACHELINE);
    StartMono(keys, b, size, size);
  }

  // ----- looking up

  /** Key `i` is what is looked for. */
  predicate Hit(keys: seq<Key>, i: nat, hash: nat, name: seq<byte>, size: nat)
    requires i < |keys| && size > 0
  {
    In(keys[i], hash % size, size) && Low(keys[i].name) == name
  }

  /** From key `i` on the next one of a bucket is key `j`. */
  lemma {:induction false} NextIn(keys: seq<Key>, i: nat, b: nat, size: nat) returns (j: nat)
    requires i <= |keys| && size > 0
    ensures i <= j <= |keys| && Sum(keys, j, b, size) == Sum(keys, i, b, size)
    ensures (forall m: nat :: i <= m < j ==> !In(keys[m], b, size)) && (j < |keys| ==> In(keys[j], b, size))
    decreases |keys| - i
  {
    if i == |keys| || In(keys[i], b, size) {
      j := i;
    } else {
      j := NextIn(keys, i + 1, b, size);
    }
  }

  /** ngx_hash_find(): the value of the first key that is what is looked for; 0, which is no value, if there is
      none. */
  method Find(mem: seq<byte>, buckets: seq<Option<nat>>, size: nat, hash: nat, name: seq<byte>,
          ghost keys: seq<Key>)
    returns (value: word)
    requires size > 0 && Packed(mem, buckets, keys, size)
    requires forall i: nat :: i < |keys| && !keys[i].gone ==> keys[i].value != 0
    ensures if value == 0 then forall i: nat :: i < |keys| ==> !Hit(keys, i, hash, name, size)
            else exists i: nat :: i < |keys| && Hit(keys, i, hash, name, size) && value == keys[i].value
                                  && forall j: nat :: j < i ==> !Hit(keys, j, hash, name, size)
  {
    hide Packed, In, Hit, Low, De, Align, Start, Sum;
    var b := hash % size;
    Bucket(mem, buckets, keys, size, b);
    if buckets[b] == None {
      NoHit(keys, hash, name, size);
      return 0;
    }
    var p := buckets[b].value;
    ghost var i := 0;
    while true
      invariant i <= |keys| && p == Start(keys, b, size) + Sum(keys, i, b, size)
      invariant forall j: nat :: j < i ==> !Hit(keys, j, hash, name, size)
      decreases |keys| - i
    {
      ghost var j := Cell(mem, buckets, keys, size, b, i);
      NotBetween(keys, i, j, hash, name, size);
      if j < |keys| {
        IsHit(keys, j, hash, name, size);
      }
      if De(mem[p..p + 8]) == 0 {
        return 0;
      }
      var len := De(mem[p + 8..p + 10]);
      var same := len == |name|;
      if same {
        same := SameName(mem, p + 10, name);
      }
      if same {
        return De(mem[p..p + 8]);
      }
      NextPlace(keys, b, j, size);
      p := Align(p + 10 + len, 8);
      i := j + 1;
    }
  }

  /** Where a bucket starts. */
  lemma Bucket(mem: seq<byte>, buckets: seq<Option<nat>>, keys: seq<Key>, size: nat, b: nat)
    requires Packed(mem, buckets, keys, size) && b < size
    ensures |buckets| == size
    ensures buckets[b] == if Sum(keys, |keys|, b, size) > 0 then Some(Start(keys, b, size)) else None
    ensures Sum(keys, 0, b, size) == 0
  {
  }

  /** What is in a bucket behind the first `i` keys: the next key of the bucket, or the end. */
  lemma Cell(mem: seq<byte>, buckets: seq<Option<nat>>, keys: seq<Key>, size: nat, b: nat, i: nat) returns (j: nat)
    requires Packed(mem, buckets, keys, size) && b < size && i <= |keys| && Sum(keys, |keys|, b, size) > 0
    ensures i <= j <= |keys| && forall m: nat :: i <= m < j ==> !In(keys[m], b, size)
    ensures var p := Start(keys, b, size) + Sum(keys, i, b, size);
            p + 8 <= |mem| &&
            if j == |keys| then De(mem[p..p + 8]) == 0
            else && p + 10 + |keys[j].name| <= |mem| && In(keys[j], b, size)
                 && De(mem[p..p + 8]) == keys[j].value && De(mem[p + 8..p + 10]) == |keys[j].name|
                 && mem[p + 10..p + 10 + |keys[j].name|] == Low(keys[j].name)
                 && Sum(keys, j, b, size) == Sum(keys, i, b, size)
  {
    hide De, Low, Start;
    j := NextIn(keys, i, b, size);
    if j == |keys| {
      assert EndAt(mem, End(keys, b, size));
    } else {
      assert EltAt(mem, Place(keys, j, size), keys[j]);
    }
  }

  lemma NotBetween(keys: seq<Key>, i: nat, j: nat, hash: nat, name: seq<byte>, size: nat)
    requires size > 0 && j <= |keys| && forall m: nat :: i <= m < j ==> !In(keys[m], hash % size, size)
    ensures forall m: nat :: i <= m < j ==> !Hit(keys, m, hash, name, size)
  {
  }

  lemma IsHit(keys: seq<Key>, j: nat, hash: nat, name: seq<byte>, size: nat)
    requires size > 0 && j < |keys| && In(keys[j], hash % size, size)
    ensures Hit(keys, j, hash, name, size) <==> Low(keys[j].name) == name
    ensures !keys[j].gone
  {
  }

  lemma NoHit(keys: seq<Key>, hash: nat, name: seq<byte>, size: nat)
    requires size > 0 && Sum(keys, |keys|, hash % size, size) == 0
    ensures forall i: nat :: i < |keys| ==> !Hit(keys, i, hash, name, size)
  {
    NoneIn(keys, hash % size, size);
  }

  lemma {:induction false} NoneIn(keys: seq<Key>, b: nat, size: nat)
    requires size > 0 && Sum(keys, |keys|, b, size) == 0
    ensures forall i: nat :: i < |keys| ==> !In(keys[i], b, size)
  {
    forall i: nat | i < |keys|
      ensures !In(keys[i], b, size)
    {
      SumMono(keys, i + 1, |keys|, b, size);
    }
  }

  /** Behind an element, aligned, is the place of the next one. */
  lemma NextPlace(keys: seq<Key>, b: nat, j: nat, size: nat)
    requires size > 0 && j < |keys| && In(keys[j], b, size)
    ensures var p := Start(keys, b, size) + Sum(keys, j, b, size);
            Align(p + 10 + |keys[j].name|, 8) == Start(keys, b, size) + Sum(keys, j + 1, b, size)
  {
    hide Start, Align;
    var p := Start(keys, b, size) + Sum(keys, j, b, size);
    WordPlace(keys, b, j, size);
    AlignShift(p, |keys[j].name| + 2);
    assert p + 8 + (|keys[j].name| + 2) == p + 10 + |keys[j].name|;
    assert Sum(keys, j + 1, b, size) == Sum(keys, j, b, size) + EltSize(keys[j]);
  }

  lemma WordPlace(keys: seq<Key>, b: nat, j: nat, size: nat)
    requires size > 0 && j < |keys|
    ensures (Start(keys, b, size) + Sum(keys, j, b, size)) % 8 == 0
  {
    hide Start, Sum;
    StartLines(keys, b, size);
    SumWords(keys, j, b, size);
  }

  lemma AlignShift(p: nat, n: nat)
    requires p % 8 == 0
    ensures Align(p + 8 + n, 8) == p + 8 + Align(n, 8)
  {
  }

  /** The comparison byte by byte. */
  method SameName(mem: seq<byte>, p: nat, name: seq<byte>) returns (same: bool)
    requires p + |name| <= |mem|
    ensures same <==> mem[p..p + |name|] == name
  {
    var i := 0;
    while i < |name|
      invariant i <= |name| && mem[p..p + i] == name[..i]
    {
      if name[i] != mem[p + i] {
        assert mem[p..p + |name|][i] != name[i];
        return false;
      }
      i := i + 1;
    }
    return true;
  }

  // ----- the hash as a map

  /** No two keys have the same name, but for case, and the hash of a key is that of its name. */
  ghost predicate Proper(keys: seq<Key>, hashOf: seq<byte> -> nat) {
    && (forall i: nat, j: nat :: i < j < |keys| && !keys[i].gone && !keys[j].gone ==>
        Low(keys[i].name) != Low(keys[j].name))
    && (forall i: nat :: i < |keys| && !keys[i].gone ==>
         keys[i].hash == hashOf(Low(keys[i].name)) && keys[i].value != 0)
  }

  /** The value is that of a map from names to values. */
  ghost predicate Agrees(keys: seq<Key>, name: seq<byte>, value: word) {
    && (forall i: nat :: i < |keys| && !keys[i].gone && Low(keys[i].name) == name ==> value == keys[i].value)
    && ((forall i: nat :: i < |keys| && !keys[i].gone ==> Low(keys[i].name) != name) ==> value == 0)
  }

  /** A lookup in a packed hash agrees with a map from names to values. */
  method Lookup(mem: seq<byte>, buckets: seq<Option<nat>>, size: nat, hash: nat, name: seq<byte>, ghost keys: seq<Key>,
          ghost hashOf: seq<byte> -> nat)
    returns (value: word)
    requires Packed(mem, buckets, keys, size) && Proper(keys, hashOf) && hash == hashOf(name)
    ensures Agrees(keys, name, value)
  {
    hide Low, Packed;
    Sized(mem, buckets, keys, size);
    value := Find(mem, buckets, size, hash, name, keys);
    forall i: nat | i < |keys| && !keys[i].gone && Low(keys[i].name) == name
      ensures value == keys[i].value
    {
      assert Hit(keys, i, hash, name, size);
    }
  }

  lemma Sized(mem: seq<byte>, buckets: seq<Option<nat>>, keys: seq<Key>, size: nat)
    requires Packed(mem, buckets, keys, size)
    ensures size > 0
  {
  }

  /** Building and finding agree with a map from names to values. */
  method BuildThenFind(keys: seq<Key>, size: nat, hashOf: seq<byte> -> nat, name: seq<byte>) returns (value: word)
    requires size > 0 && Fits(keys, size) && Proper(keys, hashOf)
    ensures Agrees(keys, name, value)
  {
    hide Packed, Fits;
    var mem, buckets := Build(keys, size);
    value := Lookup(mem[..], buckets[..], size, hashOf(name), name, keys, hashOf);
  }

  /** The size that ngx_hash_init() builds with: the first one accepted, or else the largest. */
  ghost predicate Chosen(keys: seq<Key>, maxSize: nat, bucketSize: nat, size: nat)
    requires bucketSize >= 24
  {
    var start, limit := StartSize(|keys|, maxSize, bucketSize - 8), bucketSize - 8;
    && 0 < size <= maxSize
    && if Accepts(keys, |keys|, size, limit) && start <= size then AllRejected(keys, start, size, limit)
       else size == maxSize && AllRejected(keys, start, maxSize + 1, limit)
  }

  /** The whole of ngx_hash_init().  There is a table unless a key is too long for a bucket or no bucket is allowed.
      It is built with the size chosen, also where that is the largest one for want of a better.  The model stops
      where the buckets of that size do not fit in 16 bits; the code does not look whether they do. */
  method Init(keys: seq<Key>, maxSize: nat, bucketSize: nat)
    returns (ok: bool, size: nat, table: Option<(seq<byte>, seq<Option<nat>>)>)
    requires bucketSize >= 24
    ensures ok <==> maxSize > 0 && forall n: nat :: n < |keys| ==> EltSize(keys[n]) + 8 <= bucketSize
    ensures ok ==> Chosen(keys, maxSize, bucketSize, size)
    ensures table.Some? <==> ok && Fits(keys, size)
    ensures table.Some? ==> Packed(table.value.0, table.value.1, keys, size)
  {
    hide Fits, Accepts, EltSize, AllRejected, Packed;
    var optimal;
    ok, size, optimal := ChooseSize(keys, maxSize, bucketSize);
    if !ok {
      return ok, size, None;
    }
    if !optimal {
      NoneAccepted(keys, maxSize, bucketSize);
    }
    if !Fits(keys, size) {
      return ok, size, None;
    }
    var mem, buckets := Build(keys, size);
    return ok, size, Some((mem[..], buckets[..]));
  }

  /** The table built by ngx_hash_init() agrees with the map whenever its buckets fit in 16 bits. */
  method InitThenFind(keys: seq<Key>, maxSize: nat, bucketSize: nat, hashOf: seq<byte> -> nat, name: seq<byte>)
    returns (ok: bool, size: nat, found: Option<word>)
    requires bucketSize >= 24 && Proper(keys, hashOf)
    ensures ok <==> maxSize > 0 && forall n: nat :: n < |keys| ==> EltSize(keys[n]) + 8 <= bucketSize
    ensures ok ==> Chosen(keys, maxSize, bucketSize, size)
    ensures found.Some? <==> ok && Fits(keys, size)
    ensures found.Some? ==> Agrees(keys, name, found.value)
  {
    hide Fits, EltSize, Packed;
    var table;
    ok, size, table := Init(keys, maxSize, bucketSize);
    if table.None? {
      return ok, size, None;
    }
    var value := Lookup(table.value.0, table.value.1, size, hashOf(name), name, keys, hashOf);
    return ok, size, Some(value);
  }

  lemma NoneAccepted(keys: seq<Key>, maxSize: nat, bucketSize: nat)
    requires bucketSize >= 24 && maxSize > 0
    requires AllRejected(keys, StartSize(|keys|, maxSize, bucketSize - 8), maxSize + 1, bucketSize - 8)
    ensures Chosen(keys, maxSize, bucketSize, maxSize)
  {
    hide Accepts, StartSize;
    if StartSize(|keys|, maxSize, bucketSize - 8) <= maxSize {
      assert Rejected(keys, maxSize, bucketSize - 8);
    }
  }

  /** A large table for many keys, for which the search starts near the largest number of buckets. */
  predicate Large(n: nat, maxSize: nat) { maxSize > 10000 && n > 0 && maxSize / n < 100 }

  /** With buckets of less than 2^15 + 8 bytes the size chosen fits and has room for the keys whenever one of those
      allowed has room, and it is the least that has; for a large table only the last 1001 sizes are tried. */
  lemma ChosenFits(keys: seq<Key>, maxSize: nat, bucketSize: nat, size: nat, s: nat)
    requires 24 <= bucketSize && 2 * (bucketSize - 8) < SHORT && Chosen(keys, maxSize, bucketSize, size)
    requires forall n: nat :: n < |keys| ==> EltSize(keys[n]) + 8 <= bucketSize
    requires 0 < s <= maxSize && Roomy(keys, s, bucketSize - 8)
    requires if Large(|keys|, maxSize) then maxSize - 1000 <= s
             else NoneGone(keys) || |keys| / ((bucketSize - 8) / 16) <= s
    ensures Roomy(keys, size, bucketSize - 8) && Fits(keys, size) && size <= s
    ensures Large(|keys|, maxSize) ==> maxSize - 1000 <= size
  {
    StartUp(keys, maxSize, bucketSize, s);
    LargeStart(|keys|, maxSize, bucketSize - 8);
    hide Accepts, Roomy, Fits, EltSize, StartSize, Large, NoneGone;
    AcceptedFits(keys, s, bucketSize);
    AcceptedFits(keys, size, bucketSize);
    assert !Rejected(keys, s, bucketSize - 8);
  }

  lemma LargeStart(n: nat, maxSize: nat, limit: nat)
    requires limit >= 16
    ensures Large(n, maxSize) ==> StartSize(n, maxSize, limit) == maxSize - 1000
  {
  }

  /** The search does not start too late. */
  lemma StartUp(keys: seq<Key>, maxSize: nat, bucketSize: nat, s: nat)
    requires 24 <= bucketSize && 0 < s <= maxSize && Roomy(keys, s, bucketSize - 8)
    requires if Large(|keys|, maxSize) then maxSize - 1000 <= s
             else NoneGone(keys) || |keys| / ((bucketSize - 8) / 16) <= s
    ensures StartSize(|keys|, maxSize, bucketSize - 8) <= s
  {
    hide Roomy, NoneGone;
    if !Large(|keys|, maxSize) && NoneGone(keys) {
      RoomNeeded(keys, s, bucketSize - 8);
      DivLessNext(|keys|, (bucketSize - 8) / 16, s);
    }
  }

  lemma DivLessNext(n: nat, d: nat, s: nat)
    requires d > 0 && n <= s * d
    ensures n / d <= s
  {
    MulNext(s, d);
    DivLess(n, d, s + 1);
  }

  ghost predicate NoneGone(keys: seq<Key>) { forall n: nat :: n < |keys| ==> !keys[n].gone }

  /** An element takes at least 16 bytes, so buckets with room for all keys are not too few. */
  lemma RoomNeeded(keys: seq<Key>, size: nat, limit: nat)
    requires size > 0 && limit >= 16 && NoneGone(keys) && Roomy(keys, size, limit)
    ensures |keys| <= size * (limit / 16)
  {
    hide NoneGone;
    CountAll(keys, |keys|, size);
    CountBounded(keys, size, size, limit);
  }

  /** How many of the first `n` keys are in one of the first `m` buckets. */
  ghost function Within(keys: seq<Key>, n: nat, m: nat, size: nat): nat
    requires n <= |keys| && size > 0
  {
    if m == 0 then 0 else Within(keys, n, m - 1, size) + Inside(keys, n, m - 1, size)
  }

  /** How many of the first `n` keys are in bucket `b`. */
  ghost function Inside(keys: seq<Key>, n: nat, b: nat, size: nat): nat
    requires n <= |keys| && size > 0
  {
    if n == 0 then 0 else Inside(keys, n - 1, b, size) + if In(keys[n - 1], b, size) then 1 else 0
  }

  lemma {:induction false} CountAll(keys: seq<Key>, n: nat, size: nat)
    requires n <= |keys| && size > 0 && NoneGone(keys)
    ensures Within(keys, n, size, size) == n
  {
    if n == 0 {
      CountNone(keys, size, size);
    } else {
      CountAll(keys, n - 1, size);
      CountMore(keys, n, size, size);
    }
  }

  lemma {:induction false} CountNone(keys: seq<Key>, m: nat, size: nat)
    requires size > 0
    ensures Within(keys, 0, m, size) == 0
  {
    if m > 0 {
      CountNone(keys, m - 1, size);
    }
  }

  lemma {:induction false} CountMore(keys: seq<Key>, n: nat, m: nat, size: nat)
    requires 0 < n <= |keys| && size > 0 && NoneGone(keys)
    ensures Within(keys, n, m, size) == Within(keys, n - 1, m, size) + if keys[n - 1].hash % size < m then 1 else 0
  {
    if m > 0 {
      CountMore(keys, n, m - 1, size);
    }
  }

  lemma {:induction false} CountBounded(keys: seq<Key>, m: nat, size: nat, limit: nat)
    requires 0 < size && m <= size && Roomy(keys, size, limit)
    ensures Within(keys, |keys|, m, size) <= m * (limit / 16)
  {
    if m > 0 {
      CountBounded(keys, m - 1, size, limit);
      SumCount(keys, |keys|, m - 1, size);
      DivMono(16 * Inside(keys, |keys|, m - 1, size), limit, 16);
      MulNext(m - 1, limit / 16);
    }
  }

  lemma {:induction false} SumCount(keys: seq<Key>, n: nat, b: nat, size: nat)
    requires n <= |keys| && size > 0
    ensures 16 * Inside(keys, n, b, size) <= Sum(keys, n, b, size)
  {
    if n > 0 {
      SumCount(keys, n - 1, b, size);
      AlignUp(|keys[n - 1].name| + 2, 8);
    }
  }

  lemma DivMono(a: nat, b: nat, d: nat)
    requires d > 0 && a <= b
    ensures a / d <= b / d
  {
    DivRest(a, d);
    DivRest(b, d);
    if a / d > b / d {
      MulMono(b / d + 1, a / d, d);
      MulNext(b / d, d);
    }
  }
}
