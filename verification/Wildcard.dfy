/** The nested hash for wildcard names of `ngx_hash.c`: `ngx_hash_wildcard_init()` builds it from
    reversed names, `ngx_hash_find_wc_head()` looks names up in it.

    The reversed name "com.example." stands for "*.example.com", the reversed name "com.example" for
    ".example.com", which matches "example.com" too.  Here a level is a map from labels; in memory it is a packed
    hash, which is another module. */
module Wildcard {
  import opened Words

  /** A data pointer. */
  type Data = nat

  datatype Name = Name(key: string, value: Data)

  /** What the value of a label says by its two low bits: 00 and 01 are data, for the label with or
      without the name that ends there; 10 and 11 are tables, likewise. */
  datatype Entry = Both(value: Data) | Longer(value: Data) | BothTable(table: Table) | LongerTable(table: Table)

  datatype Table = Table(labels: map<string, Entry>, value: Option<Data>)

  // ----- labels

  /** The place of the first dot, or the length. */
  function DotAt(k: string): (i: nat)
    ensures i <= |k| && (i < |k| ==> k[i] == '.') && forall j :: 0 <= j < i ==> k[j] != '.'
  {
    if k == "" || k[0] == '.' then 0 else 1 + DotAt(k[1..])
  }

  function Head(k: string): string { k[..DotAt(k)] }

  predicate Dotted(k: string) { DotAt(k) < |k| }

  function Tail(k: string): string
    requires Dotted(k)
  {
    k[DotAt(k) + 1..]
  }

  /** The place behind the last dot, or 0. */
  function LastAt(t: string): (n: nat)
    ensures n <= |t| && (n > 0 ==> t[n - 1] == '.') && forall j :: n <= j < |t| ==> t[j] != '.'
  {
    if t == "" then 0
    else if t[|t| - 1] == '.' then |t|
    else LastAt(t[..|t| - 1])
  }

  // ----- what a table is meant to find

  /** The reversed name `k` matches the name `t`. */
  predicate Matches(k: string, t: string) { MatchesLabels(k, t) }

  predicate MatchesLabels(k: string, t: string)
    decreases |k|
  {
    var n := LastAt(t);
    t[n..] == Head(k) && (Dotted(k) ==> n > 0 && (Tail(k) == "" || MatchesLabels(Tail(k), t[..n - 1])))
  }

  /** The number of labels of a reversed name. */
  function Depth(k: string): nat { LabelCount(k) }

  function LabelCount(k: string): (n: nat)
    ensures n > 0
    decreases |k|
  {
    if Dotted(k) && Tail(k) != "" then 1 + LabelCount(Tail(k)) else 1
  }

  /** Name `i` is one of the longest that match `t`. */
  ghost predicate BestAt(names: seq<Name>, t: string, i: nat) {
    && i < |names| && Matches(names[i].key, t)
    && forall j: nat :: j < |names| && Matches(names[j].key, t) ==> Depth(names[j].key) <= Depth(names[i].key)
  }

  ghost predicate NoneMatches(names: seq<Name>, t: string) {
    forall j: nat :: j < |names| ==> !Matches(names[j].key, t)
  }

  /** `r` is the value of the longest name that matches `t`, if any does. */
  ghost predicate IsBest(names: seq<Name>, t: string, r: Option<Data>) {
    match r
    case None => NoneMatches(names, t)
    case Some(v) => exists i: nat :: BestAt(names, t, i) && names[i].value == v
  }

  function Last(t: string): string { t[LastAt(t)..] }

  /** What an entry yields for a name that ends in its label. */
  function Use(e: Entry, t: string): Option<Data>
    decreases |t|, 0
  {
    var n := LastAt(t);
    match e
    case Both(v) => Some(v)
    case Longer(v) => if n == 0 then None else Some(v)
    case BothTable(next) => if n == 0 then next.value else Or(Find(next, t[..n - 1]), next.value)
    case LongerTable(next) => if n == 0 then None else Or(Find(next, t[..n - 1]), next.value)
  }

  function Or(r: Option<Data>, d: Option<Data>): Option<Data> { if r.Some? then r else d }

  /** What a table yields for a name. */
  function Find(w: Table, t: string): Option<Data>
    decreases |t|, 1
  {
    if Last(t) in w.labels then Use(w.labels[Last(t)], t) else w.value
  }

  // ----- the order the names come in

  /** ngx_dns_strcmp(): the dot is lower than what may be in a label. */
  function Rank(c: char): int { if c == '.' then ' ' as int else c as int }

  predicate Less(a: string, b: string) {
    b != "" && (a == "" || Rank(a[0]) < Rank(b[0]) || (a[0] == b[0] && Less(a[1..], b[1..])))
  }

  predicate Plain(k: string) { forall i :: 0 <= i < |k| ==> k[i] > ' ' }

  /** The names are sorted, made of letters above the blank, and free of the conflicts that
      ngx_hash_add_key() refuses: no name twice, and not both "*.x" and ".x". */
  ghost predicate Good(names: seq<Name>) {
    && (forall i, j :: 0 <= i < j < |names| ==> Less(names[i].key, names[j].key))
    && (forall x <- names :: Plain(x.key))
    && (forall x, y :: x in names && y in names ==> y.key != x.key + ".")
  }

  lemma {:induction false} LessPrefix(p: string, a: string, b: string)
    ensures Less(p + a, p + b) <==> Less(a, b)
  {
    if p == "" {
      assert p + a == a && p + b == b;
    } else {
      LessPrefix(p[1..], a, b);
      assert (p + a)[1..] == p[1..] + a && (p + b)[1..] == p[1..] + b;
    }
  }

  lemma {:induction false} LessIrreflexive(a: string, b: string)
    requires Less(a, b)
    ensures !Less(b, a) && a != b
  {
    if a != "" && a[0] == b[0] {
      LessIrreflexive(a[1..], b[1..]);
    }
  }

  /** Names with the same first label stand together. */
  lemma {:induction false} Between(a: string, b: string, c: string)
    requires Less(a, b) && Less(b, c) && Plain(a) && Plain(b) && Plain(c) && Head(a) == Head(c)
    ensures Head(b) == Head(a)
  {
    assert b[0] > ' ' && (a != "" ==> a[0] > ' ') && c[0] > ' ';
    if Head(a) != "" {
      assert a[0] == Head(a)[0] == Head(c)[0] == c[0];
      assert Head(a)[1..] == Head(a[1..]) && Head(c)[1..] == Head(c[1..]);
      Between(a[1..], b[1..], c[1..]);
      assert Head(b) == [b[0]] + Head(b[1..]);
      assert Head(a) == [a[0]] + Head(a[1..]);
    }
  }

  /** A key in its parts. */
  lemma Parts(k: string)
    ensures if Dotted(k) then k == Head(k) + "." + Tail(k) else k == Head(k)
  {
  }

  /** What follows the first name of a group has more labels. */
  lemma Followers(names: seq<Name>, n: nat, i: nat)
    requires Good(names) && n < i < |names| && Head(names[i].key) == Head(names[n].key)
    ensures Dotted(names[i].key) && Tail(names[i].key) != ""
  {
    var a, b := names[n].key, names[i].key;
    var h := Head(a);
    Parts(a);
    Parts(b);
    LessIrreflexive(a, b);
    var rest := if Dotted(a) then "." + Tail(a) else "";
    assert a == h + rest;
    Prefix(h, rest);
    if Dotted(a) {
      assert a == (h + ".") + Tail(a);
      Prefix(h + ".", Tail(a));
    }
    assert names[i] in names && names[n] in names;
    OnlyLabel(b);
    OnlyLabel(a);
  }

  lemma OnlyLabel(k: string)
    ensures Dotted(k) && Tail(k) == "" ==> k == Head(k) + "."
  {
    Parts(k);
  }

  /** A prefix is not greater. */
  lemma Prefix(a: string, rest: string)
    ensures rest != "" ==> Less(a, a + rest)
    ensures rest == "" ==> a + rest == a
  {
    LessPrefix(a, "", rest);
    assert a + "" == a;
  }

  // ----- groups of names

  lemma NoMatch(names: seq<Name>, t: string)
    requires forall x <- names :: Head(x.key) != Last(t)
    ensures NoneMatches(names, t)
  {
  }

  /** Names that do not match do not count. */
  lemma BestAmong(a: seq<Name>, b: seq<Name>, t: string, r: Option<Data>)
    requires (IsBest(a, t, r) && NoneMatches(b, t)) || (IsBest(b, t, r) && NoneMatches(a, t))
    ensures IsBest(a + b, t, r)
  {
    hide Matches, Depth;
    if r.Some? {
      if IsBest(a, t, r) && NoneMatches(b, t) {
        var i: nat :| BestAt(a, t, i) && a[i].value == r.value;
        assert BestAt(a + b, t, i);
      } else {
        var i: nat :| BestAt(b, t, i) && b[i].value == r.value;
        assert BestAt(a + b, t, |a| + i);
      }
    }
  }

  /** The names of a group but for their first label, without the name that is nothing else. */
  ghost predicate Tails(group: seq<Name>, bare: bool, tails: seq<Name>) {
    && |group| > 0 && |tails| + (if bare then 1 else 0) == |group|
    && (forall i :: (if bare then 1 else 0) <= i < |group| ==>
          Dotted(group[i].key) && Tail(group[i].key) != "" &&
          tails[i - if bare then 1 else 0] == Name(Tail(group[i].key), group[i].value))
    && (bare ==> Dotted(group[0].key) ==> Tail(group[0].key) == "")
    && (!Dotted(group[0].key) ==> bare)
  }

  /** Name `i` of a group matches as its tail matches what is left of the name. */
  ghost predicate MatchAsTail(group: seq<Name>, d: nat, tails: seq<Name>, t: string, n: nat, i: nat)
    requires d <= i < |group| == d + |tails| && n <= |t|
  {
    && tails[i - d].value == group[i].value && Depth(group[i].key) == 1 + Depth(tails[i - d].key)
    && (Matches(group[i].key, t) <==> n > 0 && Matches(tails[i - d].key, t[..n - 1]))
  }

  /** So do all names of the group but the bare name, at index 0 if there is one. */
  ghost predicate MatchAsTails(group: seq<Name>, d: nat, tails: seq<Name>, t: string, n: nat) {
    && n <= |t| && |group| == d + |tails| && d <= 1
    && forall i: nat :: d <= i < |group| ==> MatchAsTail(group, d, tails, t, n, i)
  }

  /** The longest of the tails stands for the longest of the group. */
  lemma TailIsBest(group: seq<Name>, d: nat, tails: seq<Name>, t: string, n: nat, j: nat)
    requires MatchAsTails(group, d, tails, t, n) && n > 0 && BestAt(tails, t[..n - 1], j)
    requires d == 1 ==> Depth(group[0].key) == 1
    ensures BestAt(group, t, j + d)
  {
    hide Matches, Depth;
    assert MatchAsTail(group, d, tails, t, n, j + d);
    forall i: nat | i < |group| && Matches(group[i].key, t)
      ensures Depth(group[i].key) <= Depth(group[j + d].key)
    {
      assert i >= d ==> MatchAsTail(group, d, tails, t, n, i) && Depth(tails[i - d].key) <= Depth(tails[j].key);
    }
  }

  /** When no tail matches, only the bare name can. */
  lemma OnlyBare(group: seq<Name>, d: nat, tails: seq<Name>, t: string, n: nat)
    requires MatchAsTails(group, d, tails, t, n) && (n > 0 ==> NoneMatches(tails, t[..n - 1]))
    ensures d == 0 || !Matches(group[0].key, t) ==> NoneMatches(group, t)
    ensures d == 1 && Matches(group[0].key, t) ==> BestAt(group, t, 0)
  {
    hide Matches, Depth;
    forall i: nat | d <= i < |group|
      ensures !Matches(group[i].key, t)
    {
      assert MatchAsTail(group, d, tails, t, n, i);
      assert n > 0 ==> !Matches(tails[i - d].key, t[..n - 1]);
    }
  }

  /** From the best of the tails to the best of the group. */
  lemma GroupBest(group: seq<Name>, bare: bool, tails: seq<Name>, h: string, t: string, r: Option<Data>)
    requires Tails(group, bare, tails) && Last(t) == h && forall x <- group :: Head(x.key) == h
    requires LastAt(t) > 0 ==> IsBest(tails, t[..LastAt(t) - 1], r)
    ensures IsBest(group, t,
              if LastAt(t) == 0 then if Dotted(group[0].key) then None else Some(group[0].value)
              else Or(r, if bare then Some(group[0].value) else None))
  {
    var n, d := LastAt(t), if bare then 1 else 0;
    forall i: nat | i < |group|
      ensures Head(group[i].key) == h
    {
      assert group[i] in group;
    }
    GroupMatches(group, bare, tails, h, t, n, d);
    hide Matches, Depth, Tails, Dotted, Last, MatchAsTails;
    if n > 0 && r.Some? {
      var j: nat :| BestAt(tails, t[..n - 1], j) && tails[j].value == r.value;
      TailIsBest(group, d, tails, t, n, j);
      SameValue(group, d, tails, t, n, j);
    } else {
      OnlyBare(group, d, tails, t, n);
    }
  }

  lemma SameValue(group: seq<Name>, d: nat, tails: seq<Name>, t: string, n: nat, j: nat)
    requires MatchAsTails(group, d, tails, t, n) && j < |tails|
    ensures j + d < |group| && group[j + d].value == tails[j].value
  {
    hide Matches, Depth;
    assert MatchAsTail(group, d, tails, t, n, j + d);
  }

  lemma GroupMatches(group: seq<Name>, bare: bool, tails: seq<Name>, h: string, t: string, n: nat, d: nat)
    requires Tails(group, bare, tails) && Last(t) == h && forall i: nat :: i < |group| ==> Head(group[i].key) == h
    requires n == LastAt(t) && d == if bare then 1 else 0
    ensures MatchAsTails(group, d, tails, t, n)
    ensures bare ==> Depth(group[0].key) == 1 && (Matches(group[0].key, t) <==> (Dotted(group[0].key) ==> n > 0))
    ensures !Dotted(group[0].key) ==> bare
  {
    TailsSize(group, bare, tails);
    if bare {
      BareMatch(group, tails, h, t, n);
    }
    hide Matches, Depth, Dotted, Tails, Last, MatchAsTail;
    forall i: nat | d <= i < |group|
      ensures MatchAsTail(group, d, tails, t, n, i)
    {
      TailMatch(group, bare, tails, h, t, n, d, i);
    }
  }

  lemma TailsSize(group: seq<Name>, bare: bool, tails: seq<Name>)
    requires Tails(group, bare, tails)
    ensures |group| > 0 && |group| == |tails| + if bare then 1 else 0
    ensures !Dotted(group[0].key) ==> bare
  {
  }

  /** How the bare name matches. */
  lemma BareMatch(group: seq<Name>, tails: seq<Name>, h: string, t: string, n: nat)
    requires Tails(group, true, tails) && Last(t) == h && Head(group[0].key) == h && n == LastAt(t)
    ensures Depth(group[0].key) == 1 && (Matches(group[0].key, t) <==> (Dotted(group[0].key) ==> n > 0))
  {
  }

  /** How another name of the group matches. */
  lemma TailMatch(group: seq<Name>, bare: bool, tails: seq<Name>, h: string, t: string, n: nat, d: nat, i: nat)
    requires Tails(group, bare, tails) && Last(t) == h && d <= i < |group| == d + |tails| && Head(group[i].key) == h
    requires n == LastAt(t) && d == if bare then 1 else 0
    ensures MatchAsTail(group, d, tails, t, n, i)
  {
  }

  /** The tails are as good as the names. */
  lemma TailsGood(names: seq<Name>, a: nat, b: nat, bare: bool, tails: seq<Name>, h: string)
    requires Good(names) && a < b <= |names| && Tails(names[a..b], bare, tails)
    requires forall i :: a <= i < b ==> Head(names[i].key) == h
    ensures Good(tails)
  {
    hide Tails, Plain, Less;
    forall i, j | 0 <= i < j < |tails|
      ensures Less(tails[i].key, tails[j].key)
    {
      TailsLess(names, a, b, bare, tails, h, i, j);
    }
    forall x | x in tails
      ensures Plain(x.key)
    {
      var i: nat :| i < |tails| && tails[i] == x;
      TailKey(names, a, b, bare, tails, h, i);
    }
    forall x, y | x in tails && y in tails
      ensures y.key != x.key + "."
    {
      var i: nat :| i < |tails| && tails[i] == x;
      var j: nat :| j < |tails| && tails[j] == y;
      TailsApart(names, a, b, bare, tails, h, i, j);
    }
  }

  lemma TailsLess(names: seq<Name>, a: nat, b: nat, bare: bool, tails: seq<Name>, h: string, i: nat, j: nat)
    requires Good(names) && a < b <= |names| && Tails(names[a..b], bare, tails) && i < j < |tails|
    requires forall i :: a <= i < b ==> Head(names[i].key) == h
    ensures Less(tails[i].key, tails[j].key)
  {
    hide Tails, Plain;
    TailKey(names, a, b, bare, tails, h, i);
    TailKey(names, a, b, bare, tails, h, j);
    LessPrefix(h + ".", tails[i].key, tails[j].key);
  }

  lemma TailsApart(names: seq<Name>, a: nat, b: nat, bare: bool, tails: seq<Name>, h: string, i: nat, j: nat)
    requires Good(names) && a < b <= |names| && Tails(names[a..b], bare, tails) && i < |tails| && j < |tails|
    requires forall i :: a <= i < b ==> Head(names[i].key) == h
    ensures tails[j].key != tails[i].key + "."
  {
    hide Tails, Plain, Less;
    TailKey(names, a, b, bare, tails, h, i);
    TailKey(names, a, b, bare, tails, h, j);
    var d := if bare then 1 else 0;
    assert names[a + i + d] in names && names[a + j + d] in names;
    assert (h + ".") + (tails[i].key + ".") == ((h + ".") + tails[i].key) + ".";
  }

  lemma TailKey(names: seq<Name>, a: nat, b: nat, bare: bool, tails: seq<Name>, h: string, i: nat)
    requires Good(names) && a < b <= |names| && Tails(names[a..b], bare, tails) && i < |tails|
    requires forall i :: a <= i < b ==> Head(names[i].key) == h
    ensures var d := if bare then 1 else 0;
            a + i + d < b && names[a + i + d].key == (h + ".") + tails[i].key && Plain(tails[i].key)
  {
    hide Good, Tails, Less, Plain, Head, Tail, Dotted, DotAt;
    var d := if bare then 1 else 0;
    TailOf(names[a..b], bare, tails, i, d);
    assert names[a..b][i + d] == names[a + i + d];
    AllPlain(names, a + i + d);
    Parts(names[a + i + d].key);
    TailPlain(names[a + i + d].key);
  }

  lemma AllPlain(names: seq<Name>, i: nat)
    requires Good(names) && i < |names|
    ensures Plain(names[i].key)
  {
    assert names[i] in names;
  }

  lemma TailOf(group: seq<Name>, bare: bool, tails: seq<Name>, i: nat, d: nat)
    requires Tails(group, bare, tails) && i < |tails| && d == if bare then 1 else 0
    ensures i + d < |group| && Dotted(group[i + d].key) && tails[i].key == Tail(group[i + d].key)
  {
    assert group[i + d].key == group[i + d].key && i + d - d == i;
  }

  lemma TailPlain(k: string)
    requires Plain(k) && Dotted(k)
    ensures Plain(Tail(k))
  {
  }

  // ----- building the table

  /** What the labels yield is the best of the names. */
  ghost predicate Serves(labels: map<string, Entry>, names: seq<Name>, t: string) {
    if Last(t) in labels then IsBest(names, t, Use(labels[Last(t)], t))
    else forall x <- names :: Head(x.key) != Last(t)
  }

  /** What a group's entry yields is the best of the group. */
  lemma EntryServes(group: seq<Name>, bare: bool, tails: seq<Name>, h: string, labels: map<string, Entry>, e: Entry,
          t: string)
    requires Tails(group, bare, tails) && (forall x <- group :: Head(x.key) == h) && Last(t) == h
    requires tails != [] ==> forall u :: Serves(labels, tails, u)
    requires var value := if bare then Some(group[0].value) else None;
             e == if tails != [] then if Dotted(group[0].key) then LongerTable(Table(labels, value))
                 else BothTable(Table(labels, value))
                  else if Dotted(group[0].key) then Longer(group[0].value) else Both(group[0].value)
    ensures IsBest(group, t, Use(e, t))
  {
    var n := LastAt(t);
    var r := if n > 0 && tails != [] then Find(Table(labels, None), t[..n - 1]) else None;
    if n > 0 && tails != [] {
      var u := t[..n - 1];
      assert Serves(labels, tails, u);
      if Last(u) !in labels {
        NoMatch(tails, u);
      }
    }
    GroupBest(group, bare, tails, h, t, r);
    hide IsBest, Tails, Serves;
  }

  /** One more group: the labels serve its names too. */
  lemma MoreServes(labels: map<string, Entry>, names: seq<Name>, group: seq<Name>, h: string, e: Entry, t: string)
    requires h !in labels && Serves(labels, names, t) && (forall x <- group :: Head(x.key) == h)
    requires Last(t) == h ==> IsBest(group, t, Use(e, t))
    requires forall x <- names :: Head(x.key) != h
    ensures Serves(labels[h := e], names + group, t)
  {
    if Last(t) == h {
      NoMatch(names, t);
      BestAmong(names, group, t, Use(e, t));
    } else if Last(t) in labels {
      NoMatch(group, t);
      BestAmong(names, group, t, Use(labels[Last(t)], t));
    }
  }

  /** The first label of a name ends before `len`. */
  method FirstDot(key: string) returns (len: nat, dot: bool)
    ensures len == DotAt(key) <= |key| && (dot <==> Dotted(key)) && Head(key) == key[..len]
    ensures dot ==> len < |key| && Tail(key) == key[len + 1..]
  {
    dot, len := false, 0;
    while len < |key|
      invariant len <= |key| && forall j :: 0 <= j < len ==> key[j] != '.'
    {
      if key[len] == '.' {
        dot := true;
        break;
      }
      len := len + 1;
    }
    FirstLabel(key, len, dot);
  }

  /** The names from `n` on with the same first label, and what follows that label in them. */
  method Group(names: seq<Name>, n: nat, len: nat, dot: bool) returns (nextNames: seq<Name>, i: nat)
    requires Good(names) && n < |names|
    requires var key := names[n].key;
             && (dot <==> Dotted(key)) && Head(key) == key[..DotAt(key)] && DotAt(key) <= |key|
             && (dot ==> DotAt(key) < |key| && Tail(key) == key[DotAt(key) + 1..])
             && len == if dot then DotAt(key) + 1 else DotAt(key)
    ensures n < i <= |names| && forall j :: n <= j < i ==> Head(names[j].key) == Head(names[n].key)
    ensures i < |names| ==> Head(names[i].key) != Head(names[n].key)
    ensures Tails(names[n..i], |names[n].key| == len, nextNames)
  {
    hide Tails, Good, Plain;
    var key := names[n].key;
    var dotLen := if dot then len else len + 1;
    nextNames := [];
    if |key| != len {
      nextNames := [Name(key[len..], names[n].value)];
    }
    ghost var bare := |key| == len;
    i := n + 1;
    FirstTails(names, n, bare, nextNames);
    while i < |names|
      invariant n < i <= |names|
      invariant forall j :: n <= j < i ==> Head(names[j].key) == Head(key)
      invariant Tails(names[n..i], bare, nextNames)
    {
      var k := names[i].key;
      SameGroup(names, n, i, len, dot);
      if |k| < len || k[..len] != key[..len] {
        break;
      }
      if !dot && |k| > len && k[len] != '.' {
        break;
      }
      Followers(names, n, i);
      TailsMore(names, n, i, bare, nextNames);
      nextNames := nextNames + [Name(k[dotLen..], names[i].value)];
      i := i + 1;
    }
  }

  lemma FirstLabel(key: string, len: nat, dot: bool)
    requires len <= |key| && (forall j :: 0 <= j < len ==> key[j] != '.') && (dot <==> len < |key|)
             && (dot ==> key[len] == '.')
    ensures len == DotAt(key) && (dot <==> Dotted(key)) && Head(key) == key[..len]
    ensures dot ==> Tail(key) == key[len + 1..]
  {
  }

  /** How the code tells whether a name belongs to the group. */
  lemma SameGroup(names: seq<Name>, n: nat, i: nat, len: nat, dot: bool)
    requires Good(names) && n < i < |names|
    requires var key := names[n].key; (dot <==> Dotted(key)) && len == DotAt(key) + if dot then 1 else 0
    ensures var key, k := names[n].key, names[i].key;
            Head(k) == Head(key) <==> |k| >= len && k[..len] == key[..len] && (dot || |k| <= len || k[len] == '.')
    ensures var key, k := names[n].key, names[i].key;
            Head(k) == Head(key) ==> Dotted(k) && DotAt(k) == DotAt(key)
  {
    hide Good, Less, Head, Dotted, DotAt;
    assert len <= |names[n].key| by {
      DotThere(names[n].key);
    }
    var key, k := names[n].key, names[i].key;
    if Head(k) == Head(key) {
      Followers(names, n, i);
      HeadPrefix(k, key, len, dot);
    }
    if |k| >= len && k[..len] == key[..len] && (dot || |k| <= len || k[len] == '.') {
      PrefixHead(k, key, len, dot);
    }
  }

  lemma HeadPrefix(k: string, key: string, len: nat, dot: bool)
    requires Head(k) == Head(key) && Dotted(k) && (dot <==> Dotted(key)) && len == DotAt(key) + if dot then 1 else 0
    ensures |k| >= len && |key| >= len && k[..len] == key[..len] && (dot || |k| <= len || k[len] == '.')
    ensures DotAt(k) == DotAt(key)
  {
    hide DotAt;
    assert |Head(k)| == DotAt(k) && |Head(key)| == DotAt(key);
    Starts(k, len);
    Starts(key, len);
  }

  lemma PrefixHead(k: string, key: string, len: nat, dot: bool)
    requires (dot <==> Dotted(key)) && len == DotAt(key) + if dot then 1 else 0
    requires |k| >= len && |key| >= len && k[..len] == key[..len] && (dot || |k| <= len || k[len] == '.')
    ensures Head(k) == Head(key)
  {
    hide DotAt;
    var m := DotAt(key);
    NoDots(k, key, len, m);
    if dot {
      assert k[..len][m] == key[..len][m];
    }
    LabelOf(k, m);
    assert k[..len][..m] == key[..len][..m];
  }

  lemma DotThere(k: string)
    ensures DotAt(k) + (if Dotted(k) then 1 else 0) <= |k|
  {
  }

  lemma OneMore(k: string, d: nat)
    requires d < |k| && k[d] == '.'
    ensures k[..d + 1] == k[..d] + "."
  {
  }

  /** The first label, with its dot if that is asked for. */
  lemma Starts(k: string, len: nat)
    requires len == DotAt(k) || (len == DotAt(k) + 1 && Dotted(k))
    ensures len <= |k| && k[..len] == if len == DotAt(k) then Head(k) else Head(k) + "."
  {
    hide DotAt;
    if len > DotAt(k) {
      OneMore(k, DotAt(k));
    }
  }

  lemma NoDots(k: string, l: string, len: nat, m: nat)
    requires m <= len <= |k| && len <= |l| && k[..len] == l[..len] && forall j :: 0 <= j < m ==> l[j] != '.'
    ensures forall j :: 0 <= j < m ==> k[j] != '.'
  {
    forall j | 0 <= j < m
      ensures k[j] != '.'
    {
      assert k[..len][j] == l[..len][j];
    }
  }

  /** A stretch without dots before a dot, or before the end, is the first label. */
  lemma LabelOf(k: string, m: nat)
    requires m <= |k| && (forall j :: 0 <= j < m ==> k[j] != '.')
    ensures m == |k| || k[m] == '.' ==> DotAt(k) == m
  {
  }

  lemma GroupHeads(names: seq<Name>, n: nat, i: nat)
    requires n < i <= |names| && forall j :: n <= j < i ==> Head(names[j].key) == Head(names[n].key)
    ensures forall x <- names[n..i] :: Head(x.key) == Head(names[n].key)
  {
    forall x | x in names[n..i]
      ensures Head(x.key) == Head(names[n].key)
    {
      var j :| 0 <= j < i - n && names[n..i][j] == x;
      assert names[n + j] == x;
    }
  }

  lemma FirstTails(names: seq<Name>, n: nat, bare: bool, tails: seq<Name>)
    requires n < |names|
    requires var key := names[n].key;
             && (bare <==> !Dotted(key) || Tail(key) == "")
             && tails == if bare then [] else [Name(Tail(key), names[n].value)]
    ensures Tails(names[n..n + 1], bare, tails)
  {
  }

  lemma TailsMore(names: seq<Name>, n: nat, i: nat, bare: bool, tails: seq<Name>)
    requires n < i < |names| && Tails(names[n..i], bare, tails) && Dotted(names[i].key) && Tail(names[i].key) != ""
    ensures Tails(names[n..i + 1], bare, tails + [Name(Tail(names[i].key), names[i].value)])
  {
    var g, g' := names[n..i], names[n..i + 1];
    assert g' == g + [names[i]];
  }

  lemma TailsShorter(names: seq<Name>, n: nat, i: nat, bare: bool, tails: seq<Name>, bound: nat)
    requires n < i <= |names| && Tails(names[n..i], bare, tails) && forall x <- names :: |x.key| < bound
    requires tails != []
    ensures bound > 0 && forall x <- tails :: |x.key| < bound - 1
  {
    var d := if bare then 1 else 0;
    forall x | x in tails
      ensures |x.key| < bound - 1
    {
      var j :| 0 <= j < |tails| && tails[j] == x;
      var y := names[n..i][j + d];
      assert y == names[n + j + d] && y in names;
    }
    assert names[n] in names;
  }

  /** No name behind a group has its first label, and no name before the next group has that one's. */
  lemma NextGroup(names: seq<Name>, n: nat, i: nat)
    requires Good(names) && n < i <= |names| && forall j :: n <= j < i ==> Head(names[j].key) == Head(names[n].key)
    requires i < |names| ==> Head(names[i].key) != Head(names[n].key)
    requires forall j :: 0 <= j < n ==> Head(names[j].key) != Head(names[n].key)
    ensures i < |names| ==> forall j :: 0 <= j < i ==> Head(names[j].key) != Head(names[i].key)
  {
    if i < |names| {
      forall j | 0 <= j < n
        ensures Head(names[j].key) != Head(names[i].key)
      {
        assert names[j] in names && names[n] in names && names[i] in names;
        if Head(names[j].key) == Head(names[i].key) {
          Between(names[j].key, names[n].key, names[i].key);
        }
      }
    }
  }

  /** Names of the same length that match the same name differ at most by the last dot. */
  lemma {:induction false} SameDepth(k: string, l: string, t: string)
    requires MatchesLabels(k, t) && MatchesLabels(l, t) && LabelCount(k) == LabelCount(l)
    ensures k == l || k == l + "." || l == k + "."
    decreases |k|
  {
    var n := LastAt(t);
    Ends(k);
    Ends(l);
    if LabelCount(k) > 1 {
      SameDepth(Tail(k), Tail(l), t[..n - 1]);
      PutBefore(Head(k) + ".", Tail(k), Tail(l));
    }
  }

  lemma PutBefore(h: string, k: string, l: string)
    ensures h + (l + ".") == (h + l) + "." && h + (k + ".") == (h + k) + "."
  {
  }

  /** A name is its first label and what follows. */
  lemma Ends(k: string)
    ensures if LabelCount(k) > 1 then Dotted(k) && Tail(k) != "" && k == (Head(k) + ".") + Tail(k)
            else k == Head(k) || k == Head(k) + "."
    ensures LabelCount(k) > 0
  {
    Parts(k);
    if Dotted(k) && Tail(k) == "" {
      assert (Head(k) + ".") + "" == Head(k) + ".";
    }
  }

  lemma {:induction false} NotLess(a: string)
    ensures !Less(a, a)
  {
    if a != "" {
      NotLess(a[1..]);
    }
  }

  lemma Different(names: seq<Name>, i: nat, j: nat)
    requires Good(names) && i < j < |names|
    ensures names[i].key != names[j].key
  {
    NotLess(names[i].key);
  }

  /** There is one longest name that matches. */
  lemma BestIsOne(names: seq<Name>, t: string, i: nat, j: nat)
    requires Good(names) && BestAt(names, t, i) && BestAt(names, t, j)
    ensures i == j
  {
    assert names[i] in names && names[j] in names;
    if i < j {
      Different(names, i, j);
    } else if j < i {
      Different(names, j, i);
    }
    SameDepth(names[i].key, names[j].key, t);
  }

  // ----- what matching means for the text of a name

  /** A reversed name with its labels put back in order, without the dot at its end. */
  function Forward(k: string): string
    decreases |k|
  {
    if Dotted(k) && Tail(k) != "" then Forward(Tail(k)) + "." + Head(k) else Head(k)
  }

  predicate EndsIn(t: string, s: string) { |s| <= |t| && t[|t| - |s|..] == s }

  /** The reversed name has a dot at its end: the name itself is not meant. */
  predicate Wild(k: string) { k != "" && k[|k| - 1] == '.' }

  /** A name matches when it ends in a dot and the pattern, or is the pattern, unless that is a wildcard. */
  lemma {:induction false} MatchesMeans(k: string, t: string)
    ensures Matches(k, t) <==> EndsIn(t, "." + Forward(k)) || (t == Forward(k) && !Wild(k))
    decreases |k|
  {
    if Dotted(k) && Tail(k) != "" {
      if LastAt(t) > 0 {
        MatchesMeans(Tail(k), t[..LastAt(t) - 1]);
      }
      MatchesMore(k, t);
    } else {
      MatchesOne(k, t);
    }
  }

  lemma MatchesOne(k: string, t: string)
    requires Dotted(k) ==> Tail(k) == ""
    ensures Matches(k, t) <==> EndsIn(t, "." + Forward(k)) || (t == Forward(k) && !Wild(k))
  {
    LastLabel(t, Head(k));
    Parts(k);
    assert Wild(k) <==> Dotted(k);
    hide EndsIn, Wild;
  }

  lemma MatchesMore(k: string, t: string)
    requires Dotted(k) && Tail(k) != ""
    requires var n := LastAt(t);
             n > 0 ==> (Matches(Tail(k), t[..n - 1]) <==>
                         || EndsIn(t[..n - 1], "." + Forward(Tail(k)))
                         || (t[..n - 1] == Forward(Tail(k)) && !Wild(Tail(k))))
    ensures Matches(k, t) <==> EndsIn(t, "." + Forward(k)) || (t == Forward(k) && !Wild(k))
  {
    MatchesStep(k, t);
    WildTail(k);
    LastLabel(t, Head(k));
    ForwardStep(k);
    hide EndsIn, Wild, Forward, Matches, Head, Dotted, Tail;
    EndsSplit(t, LastAt(t), Forward(Tail(k)), Head(k));
  }

  lemma ForwardStep(k: string)
    requires Dotted(k) && Tail(k) != ""
    ensures Forward(k) == Forward(Tail(k)) + "." + Head(k)
  {
  }

  /** A name whose last label is `h` ends in the rest of a pattern before that label. */
  lemma EndsSplit(t: string, n: nat, r: string, h: string)
    requires n <= |t| && (t[n..] == h && n > 0 <==> EndsIn(t, "." + h))
    ensures if t[n..] == h && n > 0 then
              && (EndsIn(t, "." + (r + "." + h)) <==> EndsIn(t[..n - 1], "." + r))
              && (t == r + "." + h <==> t[..n - 1] == r)
            else
              !EndsIn(t, "." + (r + "." + h)) && t != r + "." + h
  {
    var x := "." + h;
    assert r + "." + h == r + x;
    assert "." + (r + x) == ("." + r) + x;
    EndsShorter(t, "." + r, x);
    EndsShorter(t, r, x);
    if t[n..] == h && n > 0 {
      WholeName(t, n, h);
      EndsJoin(t[..n - 1], "." + r, x);
      SameFront(t[..n - 1], r, x);
    }
    hide EndsIn;
  }

  lemma WholeName(t: string, n: nat, h: string)
    requires 0 < n <= |t| && t[n..] == h && EndsIn(t, "." + h)
    ensures t == t[..n - 1] + ("." + h)
  {
    assert |t| - |"." + h| == n - 1;
    assert t[n - 1..] == "." + h;
    assert t == t[..n - 1] + t[n - 1..];
  }

  lemma MatchesStep(k: string, t: string)
    requires Dotted(k) && Tail(k) != ""
    ensures var n := LastAt(t); Matches(k, t) <==> t[n..] == Head(k) && n > 0 && Matches(Tail(k), t[..n - 1])
  {
  }

  lemma WildTail(k: string)
    requires Dotted(k) && Tail(k) != ""
    ensures Wild(k) <==> Wild(Tail(k))
  {
    Parts(k);
  }

  lemma LastLabel(t: string, h: string)
    requires forall i :: 0 <= i < |h| ==> h[i] != '.'
    ensures t[LastAt(t)..] == h && LastAt(t) > 0 <==> EndsIn(t, "." + h)
    ensures t[LastAt(t)..] == h && LastAt(t) == 0 <==> t == h
  {
    var n := LastAt(t);
    if t[n..] == h && n > 0 {
      assert t[n - 1..] == "." + h;
    }
    if EndsIn(t, "." + h) {
      var m := |t| - |h|;
      assert t[m - 1] == t[m - 1..][0] == '.';
      assert t[m..] == t[m - 1..][1..] == h;
      assert forall j :: m <= j < |t| ==> t[j] == h[j - m];
    }
  }

  lemma EndsShorter(t: string, a: string, b: string)
    ensures EndsIn(t, a + b) || t == a + b ==> EndsIn(t, b)
  {
    if EndsIn(t, a + b) {
      assert t[|t| - |b|..] == t[|t| - |a + b|..][|a|..] == b;
    }
  }

  lemma EndsJoin(a: string, b: string, x: string)
    ensures EndsIn(a + x, b + x) <==> EndsIn(a, b)
  {
    if |b| <= |a| {
      assert (a + x)[|a| - |b|..] == a[|a| - |b|..] + x;
      SameFront(a[|a| - |b|..], b, x);
    }
  }

  lemma SameFront(a: string, b: string, x: string)
    ensures a + x == b + x <==> a == b
  {
    if a + x == b + x {
      assert (a + x)[..|a|] == a && (b + x)[..|b|] == b;
    }
  }

  /** Of two names that match, the one with more labels is the longer one. */
  lemma {:induction false} DepthIsLength(k: string, l: string, t: string)
    requires MatchesLabels(k, t) && MatchesLabels(l, t) && LabelCount(k) < LabelCount(l)
    ensures |Forward(k)| < |Forward(l)|
    decreases |k|
  {
    if LabelCount(k) > 1 {
      DepthIsLength(Tail(k), Tail(l), t[..LastAt(t) - 1]);
    }
  }
}
