/** The nested wildcard hash of `ngx_hash.c` in memory.  Each level is a packed hash of labels; the value of a label
    is a data pointer or the address of another table, and its two low bits say which, and whether the name that
    ends at the label is meant too. */
module WildcardPacked {
  import opened Words
  import opened Wildcard
  import Hash

  /** An ngx_hash_wildcard_t: a packed hash, and the value of the level, 0 for none. */
  datatype Hwc = Hwc(mem: seq<byte>, buckets: seq<Option<nat>>, size: nat, value: word)

  /** Table `i` of the store is at address 4(i + 1). */
  const ADDRESSES: nat := WORD_SIZE / 4 - 1

  // ----- names as bytes

  function Text(s: seq<byte>): (t: string)
    ensures |t| == |s|
  {
    seq(|s|, i requires 0 <= i < |s| => s[i] as int as char)
  }

  /** Bytes, and no capital letters. */
  predicate Small(t: string) { forall i :: 0 <= i < |t| ==> t[i] < 256 as char && !('A' <= t[i] <= 'Z') }

  function Bytes(t: string): (s: seq<byte>)
    requires Small(t)
    ensures |s| == |t| && Text(s) == t && Hash.Low(s) == s
  {
    var s := seq(|t|, i requires 0 <= i < |t| => t[i] as int as byte);
    LowSmall(s);
    s
  }

  lemma LowSmall(s: seq<byte>)
    requires forall i :: 0 <= i < |s| ==> !(65 <= s[i] <= 90)
    ensures Hash.Low(s) == s
  {
  }

  /** ngx_hash_key(). */
  function HashOf(s: seq<byte>): (key: nat)
    ensures key < WORD_SIZE
  {
    if s == [] then 0 else (HashOf(s[..|s| - 1]) * 31 + s[|s| - 1] as int) % WORD_SIZE
  }

  // ----- what the tables in the store stand for

  function Address(i: nat): word
    requires i < ADDRESSES
  {
    4 * (i + 1)
  }

  /** Data pointers are aligned and not null. */
  predicate Pointer(d: nat) { 0 < d < WORD_SIZE && d % 4 == 0 }

  /** The value `v` stands for the entry `e`; a table it points to is the one before place `n` in the store. */
  ghost predicate Codes(v: word, e: Entry, tabs: seq<Table>, n: nat) {
    match e
    case Both(d) => Pointer(d) && v == d
    case Longer(d) => Pointer(d) && v == d + 1
    case BothTable(t) => exists j: nat :: PointsTo(v, t, tabs, n, j, 2)
    case LongerTable(t) => exists j: nat :: PointsTo(v, t, tabs, n, j, 3)
  }

  ghost predicate PointsTo(v: word, t: Table, tabs: seq<Table>, n: nat, j: nat, bits: nat) {
    j < n && j < |tabs| && j < ADDRESSES && tabs[j] == t && v == Address(j) + bits
  }

  /** The keys of a packed hash are the labels of the level. */
  ghost predicate KeysOk(keys: seq<Hash.Key>, labels: map<string, Entry>, tabs: seq<Table>, n: nat) {
    && Hash.Proper(keys, HashOf)
    && (forall k <- keys :: KeyOk(k, labels, tabs, n))
    && (forall l <- labels :: exists k <- keys :: Text(k.name) == l)
  }

  ghost predicate KeyOk(k: Hash.Key, labels: map<string, Entry>, tabs: seq<Table>, n: nat) {
    && !k.gone && Hash.Low(k.name) == k.name && Text(k.name) in labels
    && Codes(k.value, labels[Text(k.name)], tabs, n)
  }

  /** The table at place `i` of the store. */
  ghost predicate TableOk(h: Hwc, keys: seq<Hash.Key>, tabs: seq<Table>, i: nat)
    requires i < |tabs|
  {
    && Hash.Packed(h.mem, h.buckets, keys, h.size) && KeysOk(keys, tabs[i].labels, tabs, i)
    && h.value == Value(tabs[i].value) && (tabs[i].value.Some? ==> Pointer(tabs[i].value.value))
  }

  ghost predicate Holds(store: seq<Hwc>, keysOf: seq<seq<Hash.Key>>, tabs: seq<Table>) {
    && |store| == |keysOf| == |tabs| <= ADDRESSES
    && forall i: nat :: i < |store| ==> TableOk(store[i], keysOf[i], tabs, i)
  }

  /** A result as the code returns it. */
  function Value(r: Option<Data>): nat { if r.Some? then r.value else 0 }

  // ----- the lookup

  /** What the packed hash of a level yields for a label. */
  lemma LabelFound(keys: seq<Hash.Key>, labels: map<string, Entry>, tabs: seq<Table>, n: nat, name: seq<byte>,
                   value: word)
    requires KeysOk(keys, labels, tabs, n) && Hash.Agrees(keys, name, value)
    ensures Text(name) !in labels ==> value == 0
    ensures Text(name) in labels ==> Codes(value, labels[Text(name)], tabs, n)
  {
    if Text(name) in labels {
      var k :| k in keys && Text(k.name) == Text(name);
      var i: nat :| i < |keys| && keys[i] == k;
      SameText(k.name, name);
      assert KeyOk(k, labels, tabs, n);
      assert Hash.Low(keys[i].name) == name;
    } else {
      forall i: nat | i < |keys| && !keys[i].gone
        ensures Hash.Low(keys[i].name) != name
      {
        assert KeyOk(keys[i], labels, tabs, n);
      }
    }
  }

  lemma SameText(a: seq<byte>, b: seq<byte>)
    requires Text(a) == Text(b)
    ensures a == b
  {
    forall i | 0 <= i < |a|
      ensures a[i] == b[i]
    {
      assert Text(a)[i] == Text(b)[i];
    }
  }

  /** Where the last label of a name starts. */
  lemma LastStart(name: seq<byte>, len: nat, n: nat)
    requires n <= len <= |name| && (n > 0 ==> name[n - 1] == 46) && forall j :: n <= j < len ==> name[j] != 46
    ensures LastAt(Text(name[..len])) == n && Last(Text(name[..len])) == Text(name[n..len])
    ensures n > 0 ==> Text(name[..len])[..n - 1] == Text(name[..n - 1])
  {
    var t := Text(name[..len]);
    assert n > 0 ==> t[n - 1] == '.';
    assert forall j :: n <= j < len ==> t[j] != '.';
    assert t[n..] == Text(name[n..len]);
  }

  /** The two low bits, and the address without them. */
  lemma LowBits(a: word, bits: nat)
    requires a % 4 == 0 && bits < 4 && a + bits < WORD_SIZE
    ensures (a + bits) / 2 % 2 == bits / 2 && (a + bits) % 2 == bits % 2 && (a + bits) - (a + bits) % 4 == a
  {
    var q, b := a / 4, bits / 2;
    assert a == 4 * q && bits == 2 * b + bits % 2 && b < 2;
    assert (4 * q + bits) / 2 == 2 * q + b;
  }

  /** ngx_hash_find_wc_head(). */
  method FindHead(store: seq<Hwc>, hwc0: nat, name: seq<byte>, len: nat, ghost keysOf: seq<seq<Hash.Key>>,
          ghost tabs: seq<Table>)
    returns (value: word)
    requires Holds(store, keysOf, tabs) && hwc0 < |store| && len <= |name|
    ensures var r := Find(tabs[hwc0], Text(name[..len])); value == Value(r) && (r.Some? <==> value != 0)
    decreases len
  {
    hide TableOk, KeysOk, Hash.Packed, Hash.Agrees, HashOf, LastAt, Text;
    var n := len;
    while n > 0
      invariant 0 <= n <= len && forall j :: n <= j < len ==> name[j] != 46
    {
      if name[n - 1] == 46 {
        break;
      }
      n := n - 1;
    }
    LastStart(name, len, n);
    var key := 0;
    HashNone(name, n);
    for i := n to len
      invariant key == HashOf(name[n..i])
    {
      key := (key * 31 + name[i] as int) % WORD_SIZE;
      HashMore(name, n, i);
    }
    var h := store[hwc0];
    ghost var t, labels := Text(name[..len]), tabs[hwc0].labels;
    TableParts(h, keysOf[hwc0], tabs, hwc0);
    value := Hash.Lookup(h.mem, h.buckets, h.size, key, name[n..len], keysOf[hwc0], HashOf);
    LabelFound(keysOf[hwc0], labels, tabs, hwc0, name[n..len], value);
    if value != 0 {
      ghost var e := labels[Last(t)];
      EntryBits(value, e, tabs, hwc0);
      if value / 2 % 2 == 1 {
        var next := (value - value % 4) / 4 - 1;
        assert e.table == tabs[next];
        TableParts(store[next], keysOf[next], tabs, next);
        if n == 0 {
          if value % 2 == 1 {
            return 0;
          }
          return store[next].value;
        }
        value := FindHead(store, next, name, n - 1, keysOf, tabs);
        if value != 0 {
          return value;
        }
        return store[next].value;
      }
      if value % 2 == 1 {
        if n == 0 {
          return 0;
        }
        return value - value % 4;
      }
      return value;
    }
    return h.value;
  }

  lemma HashNone(name: seq<byte>, n: nat)
    requires n <= |name|
    ensures HashOf(name[n..n]) == 0
  {
  }

  lemma HashMore(name: seq<byte>, n: nat, i: nat)
    requires n <= i < |name|
    ensures HashOf(name[n..i + 1]) == (HashOf(name[n..i]) * 31 + name[i] as int) % WORD_SIZE
  {
    assert name[n..i + 1][..|name[n..i + 1]| - 1] == name[n..i];
  }

  lemma TableParts(h: Hwc, keys: seq<Hash.Key>, tabs: seq<Table>, i: nat)
    requires i < |tabs| && TableOk(h, keys, tabs, i)
    ensures Hash.Packed(h.mem, h.buckets, keys, h.size) && Hash.Proper(keys, HashOf)
    ensures KeysOk(keys, tabs[i].labels, tabs, i)
    ensures h.value == Value(tabs[i].value) && (tabs[i].value.Some? <==> h.value != 0)
  {
    hide Hash.Packed, HashOf;
  }

  /** What the bits of a value say of its entry. */
  lemma EntryBits(v: word, e: Entry, tabs: seq<Table>, n: nat)
    requires Codes(v, e, tabs, n)
    ensures v / 2 % 2 == 1 <==> e.BothTable? || e.LongerTable?
    ensures v % 2 == 1 <==> e.Longer? || e.LongerTable?
    ensures e.Both? || e.Longer? ==> v - v % 4 == e.value > 0
    ensures e.BothTable? || e.LongerTable? ==>
              var j := (v - v % 4) / 4 - 1; 0 <= j < n && j < |tabs| && tabs[j] == e.table
  {
    match e
    case Both(d) => LowBits(d, 0);
    case Longer(d) => LowBits(d, 1);
    case BothTable(t) =>
      var j: nat :| PointsTo(v, t, tabs, n, j, 2);
      LowBits(Address(j), 2);
    case LongerTable(t) =>
      var j: nat :| PointsTo(v, t, tabs, n, j, 3);
      LowBits(Address(j), 3);
  }

  // ----- building the tables

  /** Names the tables can hold: without capital letters, and with proper data pointers. */
  ghost predicate Storable(names: seq<Name>) { forall x <- names :: Small(x.key) && Pointer(x.value) }

  /** ngx_hash_init() gives up on the keys, or its buckets get too large for 16 bits. */
  ghost predicate Refused(keys: seq<Hash.Key>, maxSize: nat, bucketSize: nat)
    requires bucketSize >= 24
  {
    || maxSize == 0
    || (exists n: nat :: n < |keys| && Hash.EltSize(keys[n]) + 8 > bucketSize)
    || exists size: nat :: Hash.Chosen(keys, maxSize, bucketSize, size) && !Hash.Fits(keys, size)
  }

  /** The keys are no more than the names, and no longer. */
  ghost predicate Within(keys: seq<Hash.Key>, names: seq<Name>) {
    |keys| <= |names| && forall k <- keys :: exists x <- names :: |k.name| <= |x.key|
  }

  /** Some level of the tables for the names cannot be built. */
  ghost predicate Failed(names: seq<Name>, maxSize: nat, bucketSize: nat)
    requires bucketSize >= 24
  {
    exists keys :: Within(keys, names) && Refused(keys, maxSize, bucketSize)
  }

  /** The room that names take. */
  ghost function Weight(names: seq<Name>): nat {
    if names == [] then 0 else |names[0].key| + 1 + Weight(names[1..])
  }

  lemma {:induction false} WeightJoin(a: seq<Name>, b: seq<Name>)
    ensures Weight(a + b) == Weight(a) + Weight(b)
  {
    if a == [] {
      assert a + b == b;
    } else {
      assert (a + b)[1..] == a[1..] + b;
      WeightJoin(a[1..], b);
    }
  }

  lemma {:induction false} ShorterLight(a: seq<Name>, b: seq<Name>)
    requires |a| == |b| && forall i :: 0 <= i < |a| ==> |b[i].key| < |a[i].key|
    ensures Weight(b) + |a| <= Weight(a)
  {
    if a != [] {
      ShorterLight(a[1..], b[1..]);
    }
  }

  /** The tails of a group are lighter than the group. */
  lemma TailsLight(names: seq<Name>, n: nat, i: nat, bare: bool, tails: seq<Name>)
    requires n < i <= |names| && Tails(names[n..i], bare, tails) && tails != []
    ensures Weight(tails) + 1 <= Weight(names[n..i]) <= Weight(names[n..])
  {
    hide Weight;
    var group := names[n..i];
    Weights(names, n, i);
    var m := if bare then 1 else 0;
    var rest := group[m..];
    Weights(group, 0, m);
    assert group[0..] == group;
    forall k | 0 <= k < |rest|
      ensures |tails[k].key| < |rest[k].key|
    {
      assert rest[k] == group[k + m];
    }
    ShorterLight(rest, tails);
  }

  /** The labels yield the best of the names for every name. */
  ghost predicate ServesAll(labels: map<string, Entry>, names: seq<Name>) { forall t :: Serves(labels, names, t) }

  /** A store grows, and the tables in it stay. */
  ghost predicate Grown(store: seq<Hwc>, keysOf: seq<seq<Hash.Key>>, tabs: seq<Table>,
                        store': seq<Hwc>, keysOf': seq<seq<Hash.Key>>, tabs': seq<Table>) {
    Holds(store', keysOf', tabs') && store <= store' && keysOf <= keysOf' && tabs <= tabs'
  }

  lemma CodesSame(v: word, e: Entry, tabs: seq<Table>, n: nat, tabs': seq<Table>, n': nat)
    requires Codes(v, e, tabs, n) && n <= n' && n <= |tabs| && n <= |tabs'|
    requires forall j :: 0 <= j < n ==> tabs'[j] == tabs[j]
    ensures Codes(v, e, tabs', n')
  {
    match e
    case Both(d) =>
    case Longer(d) =>
    case BothTable(t) =>
      var j: nat :| PointsTo(v, t, tabs, n, j, 2);
      assert PointsTo(v, t, tabs', n', j, 2);
    case LongerTable(t) =>
      var j: nat :| PointsTo(v, t, tabs, n, j, 3);
      assert PointsTo(v, t, tabs', n', j, 3);
  }

  lemma KeysSame(keys: seq<Hash.Key>, labels: map<string, Entry>, tabs: seq<Table>, n: nat, tabs': seq<Table>, n': nat)
    requires KeysOk(keys, labels, tabs, n) && n <= n' && n <= |tabs| && n <= |tabs'|
    requires forall j :: 0 <= j < n ==> tabs'[j] == tabs[j]
    ensures KeysOk(keys, labels, tabs', n')
  {
    hide Hash.Proper, Codes, Text;
    forall k <- keys
      ensures KeyOk(k, labels, tabs', n')
    {
      assert KeyOk(k, labels, tabs, n);
      CodesSame(k.value, labels[Text(k.name)], tabs, n, tabs', n');
    }
  }

  /** One more label. */
  lemma KeysMore(keys: seq<Hash.Key>, labels: map<string, Entry>, tabs: seq<Table>, n: nat, h: string, e: Entry,
                 v: word)
    requires KeysOk(keys, labels, tabs, n) && h !in labels && Small(h) && Codes(v, e, tabs, n)
    ensures KeysOk(keys + [Hash.Key(Bytes(h), false, HashOf(Bytes(h)), v)], labels[h := e], tabs, n)
  {
    hide HashOf, Text, Small;
    var k := Hash.Key(Bytes(h), false, HashOf(Bytes(h)), v);
    var keys', labels' := keys + [k], labels[h := e];
    CodesPositive(v, e, tabs, n);
    forall x <- keys
      ensures KeyOk(x, labels', tabs, n) && x.name != k.name
    {
      assert KeyOk(x, labels, tabs, n);
    }
    forall x <- keys'
      ensures KeyOk(x, labels', tabs, n)
    {
      assert x in keys || x == k;
    }
    forall l <- labels'
      ensures exists x <- keys' :: Text(x.name) == l
    {
      if l == h {
        assert k in keys';
      } else {
        var x :| x in keys && Text(x.name) == l;
        assert x in keys';
      }
    }
    ProperMore(keys, k);
  }

  lemma CodesPositive(v: word, e: Entry, tabs: seq<Table>, n: nat)
    requires Codes(v, e, tabs, n)
    ensures v != 0
  {
  }

  lemma ProperMore(keys: seq<Hash.Key>, k: Hash.Key)
    requires Hash.Proper(keys, HashOf) && (forall x <- keys :: Hash.Low(x.name) == x.name && x.name != k.name)
    requires Hash.Low(k.name) == k.name && k.hash == HashOf(k.name) && k.value != 0
    ensures Hash.Proper(keys + [k], HashOf)
  {
    hide HashOf, Hash.Low;
  }

  /** A level is put in the store. */
  lemma HoldsMore(store: seq<Hwc>, keysOf: seq<seq<Hash.Key>>, tabs: seq<Table>, mem: seq<byte>,
                  buckets: seq<Option<nat>>, size: nat, keys: seq<Hash.Key>, labels: map<string, Entry>)
    requires Holds(store, keysOf, tabs) && |store| < ADDRESSES
    requires Hash.Packed(mem, buckets, keys, size) && KeysOk(keys, labels, tabs, |tabs|)
    ensures Grown(store, keysOf, tabs,
                  store + [Hwc(mem, buckets, size, 0)], keysOf + [keys], tabs + [Table(labels, None)])
  {
    hide Hash.Packed, KeysOk;
    var store', keysOf', tabs' := store + [Hwc(mem, buckets, size, 0)], keysOf + [keys], tabs + [Table(labels, None)];
    KeysSame(keys, labels, tabs, |tabs|, tabs', |tabs|);
    forall i: nat | i < |store'|
      ensures TableOk(store'[i], keysOf'[i], tabs', i)
    {
      if i < |store| {
        assert TableOk(store[i], keysOf[i], tabs, i);
        KeysSame(keysOf[i], tabs[i].labels, tabs, i, tabs', i);
      }
    }
  }

  /** The table built last gets a value. */
  lemma HoldsValue(store: seq<Hwc>, keysOf: seq<seq<Hash.Key>>, tabs: seq<Table>, d: nat)
    requires Holds(store, keysOf, tabs) && store != [] && Pointer(d)
    ensures var l := |store| - 1;
            Holds(store[l := store[l].(value := d)], keysOf, tabs[l := tabs[l].(value := Some(d))])
  {
    hide Hash.Packed, KeysOk;
    var l := |store| - 1;
    var store', tabs' := store[l := store[l].(value := d)], tabs[l := tabs[l].(value := Some(d))];
    forall i: nat | i < |store'|
      ensures TableOk(store'[i], keysOf[i], tabs', i)
    {
      assert TableOk(store[i], keysOf[i], tabs, i);
      KeysSame(keysOf[i], tabs[i].labels, tabs, i, tabs', i);
    }
  }

  lemma TailsStorable(names: seq<Name>, n: nat, i: nat, bare: bool, tails: seq<Name>)
    requires n < i <= |names| && Storable(names) && Tails(names[n..i], bare, tails)
    ensures Storable(tails)
  {
    var group := names[n..i];
    forall x <- tails
      ensures Small(x.key) && Pointer(x.value)
    {
      var j :| 0 <= j < |tails| && tails[j] == x;
      var g := group[j + if bare then 1 else 0];
      assert g in names;
    }
  }

  lemma TailsWithin(names: seq<Name>, n: nat, i: nat, bare: bool, tails: seq<Name>, keys: seq<Hash.Key>)
    requires n < i <= |names| && Tails(names[n..i], bare, tails) && Within(keys, tails)
    ensures Within(keys, names)
  {
    var group := names[n..i];
    forall k <- keys
      ensures exists x <- names :: |k.name| <= |x.key|
    {
      var x :| x in tails && |k.name| <= |x.key|;
      var j :| 0 <= j < |tails| && tails[j] == x;
      var g := group[j + if bare then 1 else 0];
      assert g in names && |x.key| <= |g.key|;
    }
  }

  /** The table built last gets its value, if there is one, and is pointed to. */
  method PointAt(store0: seq<Hwc>, value: Option<nat>, dot: bool, ghost keysOf: seq<seq<Hash.Key>>,
          ghost tabs0: seq<Table>)
    returns (store: seq<Hwc>, v: word, ghost e: Entry, ghost tabs: seq<Table>)
    requires Holds(store0, keysOf, tabs0) && store0 != [] && |tabs0| == |store0| && tabs0[|tabs0| - 1].value.None?
    requires value.Some? ==> Pointer(value.value)
    ensures Holds(store, keysOf, tabs) && |store| == |store0| && |tabs| == |tabs0|
    ensures store[..|store| - 1] == store0[..|store| - 1] && tabs[..|tabs| - 1] == tabs0[..|tabs| - 1]
    ensures Codes(v, e, tabs, |tabs|)
    ensures var t := Table(tabs0[|tabs0| - 1].labels, value); e == if dot then LongerTable(t) else BothTable(t)
  {
    hide Holds;
    Lengths(store0, keysOf, tabs0);
    var last := |store0| - 1;
    store, tabs := store0, tabs0;
    if value.Some? {
      HoldsValue(store, keysOf, tabs, value.value);
      store := store[last := store[last].(value := value.value)];
      tabs := tabs[last := tabs[last].(value := value)];
    }
    v := Address(last) + if dot then 3 else 2;
    e := if dot then LongerTable(tabs[last]) else BothTable(tabs[last]);
    assert PointsTo(v, tabs[last], tabs, |tabs|, last, if dot then 3 else 2);
  }

  /** ngx_hash_wildcard_init(): one label of a level, and the tables below it. */
  method InitGroup(names: seq<Name>, n: nat, maxSize: nat, bucketSize: nat, store0: seq<Hwc>,
          ghost keysOf0: seq<seq<Hash.Key>>, ghost tabs0: seq<Table>, ghost bound: nat)
    returns (ok: bool, v: word, i: nat, store: seq<Hwc>, ghost e: Entry, ghost keysOf: seq<seq<Hash.Key>>,
          ghost tabs: seq<Table>)
    requires bucketSize >= 24 && Good(names) && Storable(names) && (forall x <- names :: |x.key| < bound)
    requires n < |names| && Holds(store0, keysOf0, tabs0) && |store0| + Weight(names[n..]) + 1 <= ADDRESSES
    ensures Grown(store0, keysOf0, tabs0, store, keysOf, tabs)
    ensures n < i <= |names| && forall j :: n <= j < i ==> Head(names[j].key) == Head(names[n].key)
    ensures i < |names| ==> Head(names[i].key) != Head(names[n].key)
    ensures |store| <= |store0| + Weight(names[n..i])
    ensures ok ==> Codes(v, e, tabs, |tabs|)
    ensures ok ==> forall t :: Last(t) == Head(names[n].key) ==> IsBest(names[n..i], t, Use(e, t))
    ensures !ok ==> Failed(names, maxSize, bucketSize)
    decreases bound, 0
  {
    hide Tails, Good, Plain, IsBest, Holds, Within, Refused, Codes;
    var key := names[n].key;
    assert names[n] in names;
    var len, dot := FirstDot(key);
    if dot {
      len := len + 1;
    }
    var nextNames;
    nextNames, i := Group(names, n, len, dot);
    ghost var bare, group, labels: map<string, Entry> := |key| == len, names[n..i], map[];
    GroupHeads(names, n, i);
    ok, store, keysOf, tabs, v, e := true, store0, keysOf0, tabs0, 0, Both(0);
    if |nextNames| > 0 {
      TailsGood(names, n, i, bare, nextNames, Head(key));
      TailsShorter(names, n, i, bare, nextNames, bound);
      TailsStorable(names, n, i, bare, nextNames);
      TailsLight(names, n, i, bare, nextNames);
      ok, store, keysOf, tabs := Init(nextNames, maxSize, bucketSize, store0, keysOf0, tabs0, bound - 1);
      if !ok {
        ghost var keys :| Within(keys, nextNames) && Refused(keys, maxSize, bucketSize);
        TailsWithin(names, n, i, bare, nextNames, keys);
        return;
      }
      Lengths(store, keysOf, tabs);
      Lengths(store0, keysOf0, tabs0);
      labels := tabs[|store| - 1].labels;
      ghost var store1, tabs1 := store, tabs;
      store, v, e, tabs := PointAt(store, if |key| == len then Some(names[n].value) else None, dot, keysOf, tabs);
      PrefixStays(store0, store1, store);
      PrefixStays(tabs0, tabs1, tabs);
    } else if dot {
      v, e := names[n].value + 1, Longer(names[n].value);
      DataCodes(names[n].value, tabs);
    } else {
      v, e := names[n].value, Both(names[n].value);
      DataCodes(names[n].value, tabs);
    }
    forall t | Last(t) == Head(key)
      ensures IsBest(group, t, Use(e, t))
    {
      EntryServes(group, bare, nextNames, Head(key), labels, e, t);
    }
  }

  lemma PrefixStays<T>(a: seq<T>, b: seq<T>, c: seq<T>)
    requires a <= b && |a| < |b| == |c| && c[..|c| - 1] == b[..|b| - 1]
    ensures a <= c
  {
    assert a == b[..|b| - 1][..|a|];
  }

  lemma DataCodes(d: nat, tabs: seq<Table>)
    requires Pointer(d)
    ensures d + 1 < WORD_SIZE && Codes(d, Both(d), tabs, |tabs|) && Codes(d + 1, Longer(d), tabs, |tabs|)
  {
  }

  lemma Lengths(store: seq<Hwc>, keysOf: seq<seq<Hash.Key>>, tabs: seq<Table>)
    requires Holds(store, keysOf, tabs)
    ensures |store| == |keysOf| == |tabs| <= ADDRESSES
  {
  }

  /** ngx_hash_wildcard_init(): a level, label by label.  Its table is the last one in the store. */
  method Init(names: seq<Name>, maxSize: nat, bucketSize: nat, store0: seq<Hwc>, ghost keysOf0: seq<seq<Hash.Key>>,
          ghost tabs0: seq<Table>, ghost bound: nat)
    returns (ok: bool, store: seq<Hwc>, ghost keysOf: seq<seq<Hash.Key>>, ghost tabs: seq<Table>)
    requires bucketSize >= 24 && Good(names) && Storable(names) && (forall x <- names :: |x.key| < bound)
    requires Holds(store0, keysOf0, tabs0) && |store0| + Weight(names) + 1 <= ADDRESSES
    ensures Grown(store0, keysOf0, tabs0, store, keysOf, tabs) && |store| == |tabs|
    ensures |store| <= |store0| + Weight(names) + 1
    ensures ok ==> |store0| < |store| && tabs[|store| - 1].value.None?
    ensures ok ==> ServesAll(tabs[|store| - 1].labels, names)
    ensures !ok ==> Failed(names, maxSize, bucketSize)
    decreases bound, 1
  {
    hide Good, Holds, KeysOk, Codes, Hash.Packed, Hash.Chosen, Hash.Fits, Hash.EltSize, Small, HashOf, Weight, Within,
        ServesAll, Storable, IsBest;
    Lengths(store0, keysOf0, tabs0);
    store, keysOf, tabs := store0, keysOf0, tabs0;
    ghost var labels: map<string, Entry> := map[];
    var keys: seq<Hash.Key> := [];
    var n := 0;
    NoKeys(tabs, names);
    while n < |names|
      invariant n <= |names| && Grown(store0, keysOf0, tabs0, store, keysOf, tabs) && |store| == |tabs|
      invariant |store| <= |store0| + Weight(names[..n])
      invariant ServesAll(labels, names[..n])
      invariant forall h <- labels :: exists j :: 0 <= j < n && Head(names[j].key) == h
      invariant n < |names| ==> forall j :: 0 <= j < n ==> Head(names[j].key) != Head(names[n].key)
      invariant KeysOk(keys, labels, tabs, |tabs|) && |keys| <= n && Within(keys, names)
    {
      var h := Head(names[n].key);
      ghost var tabs1 := tabs;
      Weights(names, n, n);
      var v, i;
      ghost var e;
      ok, v, i, store, e, keysOf, tabs := InitGroup(names, n, maxSize, bucketSize, store, keysOf, tabs, bound);
      Lengths(store, keysOf, tabs);
      Weights(names, n, i);
      if !ok {
        return;
      }
      HeadSmall(names, n);
      KeysSame(keys, labels, tabs1, |tabs1|, tabs, |tabs|);
      KeysMore(keys, labels, tabs, |tabs|, h, e, v);
      WithinMore(keys, names, n, Hash.Key(Bytes(h), false, HashOf(Bytes(h)), v));
      keys := keys + [Hash.Key(Bytes(h), false, HashOf(Bytes(h)), v)];
      MoreNames(labels, names, n, i, h, e);
      labels := labels[h := e];
      NextGroup(names, n, i);
      n := i;
    }
    assert names[..n] == names;
    Lengths(store, keysOf, tabs);
    var size, table;
    ok, size, table := Hash.Init(keys, maxSize, bucketSize);
    if table.None? {
      assert Refused(keys, maxSize, bucketSize);
      return false, store, keysOf, tabs;
    }
    HoldsMore(store, keysOf, tabs, table.value.0, table.value.1, size, keys, labels);
    store := store + [Hwc(table.value.0, table.value.1, size, 0)];
    keysOf, tabs := keysOf + [keys], tabs + [Table(labels, None)];
  }

  lemma NoKeys(tabs: seq<Table>, names: seq<Name>)
    ensures KeysOk([], map[], tabs, |tabs|) && Within([], names) && ServesAll(map[], names[..0]) && Weight([]) == 0
  {
  }

  lemma WithinMore(keys: seq<Hash.Key>, names: seq<Name>, n: nat, k: Hash.Key)
    requires Within(keys, names) && |keys| <= n < |names| && |k.name| <= |names[n].key|
    ensures Within(keys + [k], names)
  {
    assert names[n] in names;
  }

  /** One more group of names. */
  lemma MoreNames(labels: map<string, Entry>, names: seq<Name>, n: nat, i: nat, h: string, e: Entry)
    requires n < i <= |names| && ServesAll(labels, names[..n]) && h !in labels && h == Head(names[n].key)
    requires forall j :: n <= j < i ==> Head(names[j].key) == h
    requires forall j :: 0 <= j < n ==> Head(names[j].key) != h
    requires forall t :: Last(t) == h ==> IsBest(names[n..i], t, Use(e, t))
    ensures ServesAll(labels[h := e], names[..i])
  {
    hide Serves, IsBest, Use, Head;
    GroupHeads(names, n, i);
    assert names[..i] == names[..n] + names[n..i];
    var labels', names' := labels[h := e], names[..i];
    forall t
      ensures Serves(labels', names', t)
    {
      assert Serves(labels, names[..n], t);
      MoreServes(labels, names[..n], names[n..i], h, e, t);
    }
  }

  lemma Weights(names: seq<Name>, n: nat, i: nat)
    requires n <= i <= |names|
    ensures Weight(names[..i]) == Weight(names[..n]) + Weight(names[n..i])
    ensures Weight(names[..i]) + Weight(names[i..]) == Weight(names)
    ensures Weight(names[n..]) == Weight(names[n..i]) + Weight(names[i..])
  {
    hide Weight;
    WeightJoin(names[..n], names[n..i]);
    WeightJoin(names[..i], names[i..]);
    WeightJoin(names[n..i], names[i..]);
    assert names[..n] + names[n..i] == names[..i] && names[..i] + names[i..] == names;
    assert names[n..i] + names[i..] == names[n..];
  }

  /** The label of a name is as storable as the name. */
  lemma HeadSmall(names: seq<Name>, n: nat)
    requires Storable(names) && n < |names|
    ensures Small(Head(names[n].key)) && |Head(names[n].key)| <= |names[n].key|
  {
    assert names[n] in names;
  }

  /** Where the tables can be built, the lookup in memory finds the value of the longest name that matches. */
  method BuildThenFind(names: seq<Name>, maxSize: nat, bucketSize: nat, name: seq<byte>, ghost bound: nat)
    returns (ok: bool, value: word)
    requires bucketSize >= 24 && Good(names) && Storable(names) && forall x <- names :: |x.key| < bound
    requires Weight(names) < ADDRESSES
    ensures ok ==> exists r :: IsBest(names, Text(name), r) && value == Value(r) && (r.Some? <==> value != 0)
    ensures !ok ==> Failed(names, maxSize, bucketSize)
  {
    hide Good, Holds, Failed, IsBest;
    NoTables();
    var store;
    ghost var keysOf, tabs;
    ok, store, keysOf, tabs := Init(names, maxSize, bucketSize, [], [], [], bound);
    if !ok {
      return false, 0;
    }
    ghost var t := Text(name);
    ghost var labels := tabs[|store| - 1].labels;
    assert name[..|name|] == name && Serves(labels, names, t);
    value := FindHead(store, |store| - 1, name, |name|, keysOf, tabs);
    if Last(t) !in labels {
      NoneBest(names, t);
    }
    assert IsBest(names, t, Find(tabs[|store| - 1], t));
  }

  lemma NoneBest(names: seq<Name>, t: string)
    requires forall x <- names :: Head(x.key) != Last(t)
    ensures IsBest(names, t, None)
  {
    NoMatch(names, t);
  }

  lemma NoTables()
    ensures Holds([], [], [])
  {
  }
}
