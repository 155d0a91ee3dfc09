/** The copying filter chain of `ngx_output_chain.c`: buffers are passed on as they are or copied into a
    bounded number of buffers of its own, and a filter takes them as it can. */
module OutputChain {
  import opened Words
  import opened Sequences
  import opened Bufs
  import Arith

  datatype Rc = Ok | Again | Error | Done | Declined | Other

  /** What came of reading a part of a file. */
  datatype Reading = Full | Short | Failed | Later

  /** `out` is the chain being put together for the filter, `pending` is what the filter has taken but not
      sent, and `buf` is the buffer being filled. */
  datatype State = State(bufs: seq<Buf>, pending: seq<nat>, out: seq<nat>, input: seq<nat>, buf: Option<nat>,
                         free: seq<nat>, busy: seq<nat>)

  /** A buffer whose memory may be changed. */
  predicate Writable(b: Buf) { b.temporary && !b.memory && !b.mmap }

  /** A part of a file that is read past the page cache. */
  predicate DirectFile(b: Buf) { b.file.Some? && b.file.value.directio }

  /** A buffer to copy to. */
  predicate Blank(b: Buf) { Writable(b) && b.pos == b.last == 0 && |b.area| > 0 && Sane(b) }

  /** The number of buffers with the tag. */
  ghost function Tagged(bufs: seq<Buf>, tag: nat): nat {
    if bufs == [] then 0 else Tagged(bufs[..|bufs| - 1], tag) + if bufs[|bufs| - 1].tag == tag then 1 else 0
  }

  /** The buffers that wait to be sent. */
  function Line(s: State): seq<nat> { s.pending + s.out + s.input }

  /** The buffers that wait to be given back after they were sent. */
  function Due(s: State): seq<nat> { s.busy + s.out + s.input }

  /** A buffer to copy to is in no other place. */
  ghost predicate Spare(s: State, x: nat) {
    x < |s.bufs| && Blank(s.bufs[x]) && x !in Line(s) && x !in Due(s)
  }

  /** No buffer waits twice; buffers that the filter gets are not empty. */
  ghost predicate Lines(s: State) {
    && Chain(s.bufs, Line(s)) && Chain(s.bufs, Due(s)) && NoDup(Line(s)) && NoDup(Due(s))
    && Chain(s.bufs, s.pending + s.out) && Loaded(s.bufs, s.pending + s.out)
  }

  /** The buffers with the chain's own tag are those it allocated; each is in one place. */
  ghost predicate Places(s: State, tag: nat) {
    && (forall i :: 0 <= i < |s.input| ==> s.input[i] < |s.bufs| && s.bufs[s.input[i]].tag != tag)
    && (forall x :: 0 <= x < |s.bufs| && s.bufs[x].tag == tag ==>
         Writable(s.bufs[x]) && |s.bufs[x].area| > 0 && (s.buf == Some(x) || x in s.free || x in Due(s)))
    && (forall i :: 0 <= i < |s.free| ==>
         Spare(s, s.free[i]) && s.bufs[s.free[i]].tag == tag && s.buf != Some(s.free[i]))
    && (s.buf.Some? ==> Spare(s, s.buf.value))
    && NoDup(s.free)
  }

  ghost predicate Good(s: State, tag: nat) { Lines(s) && Places(s, tag) }

  /** What is busy longest is not sent yet. */
  ghost predicate HeadWaits(s: State) {
    s.busy != [] && s.busy[0] < |s.bufs| ==> Size(s.bufs[s.busy[0]]) != 0
  }

  /** The bytes that are still to be sent. */
  ghost function Unsent(s: State): seq<byte>
    requires Lines(s)
  {
    Bytes(s.bufs, Line(s))
  }

  // ----- passing on, copying

  /** The first buffer of the input is passed on. */
  lemma PassedOn(s: State, s': State, tag: nat)
    requires Good(s, tag) && s.input != []
    requires s.input[0] < |s.bufs| && (Special(s.bufs[s.input[0]]) || Size(s.bufs[s.input[0]]) > 0)
    requires s' == s.(out := s.out + [s.input[0]], input := s.input[1..])
    ensures Good(s', tag) && Unsent(s') == Unsent(s)
  {
    hide Content;
    assert Line(s') == Line(s) && Due(s') == Due(s);
    var done, n := s.pending + s.out, |s.pending + s.out|;
    assert Line(s)[n] == s.input[0];
    assert s'.pending + s'.out == done + [s.input[0]];
  }

  /** The first buffer of the input is empty. */
  lemma Skipped(s: State, s': State, tag: nat)
    requires Good(s, tag) && s.input != []
    requires s.input[0] < |s.bufs| && Sane(s.bufs[s.input[0]]) && Size(s.bufs[s.input[0]]) == 0
    requires s' == s.(input := s.input[1..])
    ensures Good(s', tag) && Unsent(s') == Unsent(s)
  {
    hide Content, Sane;
    var n, m := |s.pending + s.out|, |s.busy + s.out|;
    Cut(s.bufs, Line(s), n);
    CutDistinct(Line(s), n);
    CutDistinct(Due(s), m);
    assert Line(s') == Line(s)[..n] + Line(s)[n + 1..];
    assert Due(s') == Due(s)[..m] + Due(s)[m + 1..];
    assert s.input[0] == Line(s)[n] == Due(s)[m];
    assert s'.pending + s'.out == s.pending + s.out;
    SkippedPlaces(s, s', tag);
  }

  lemma SkippedPlaces(s: State, s': State, tag: nat)
    requires Places(s, tag) && s.input != [] && s' == s.(input := s.input[1..])
    ensures Places(s', tag)
  {
    hide Blank;
    forall x ensures x in Line(s') ==> x in Line(s) {
    }
    forall x ensures x in Due(s') ==> x in Due(s) {
    }
    forall x | 0 <= x < |s.bufs| && s.bufs[x].tag == tag && x in Due(s) ensures x in Due(s') {
      assert x != s.input[0];
    }
  }

  lemma OneEmpty(bufs: seq<Buf>, x: nat)
    requires x < |bufs| && Sane(bufs[x]) && Size(bufs[x]) == 0
    ensures Chain(bufs, [x]) && Bytes(bufs, [x]) == []
  {
  }

  lemma CutParts(bufs: seq<Buf>, a: seq<nat>, x: nat, b: seq<nat>)
    requires Chain(bufs, a) && Chain(bufs, b) && x < |bufs| && Sane(bufs[x]) && Size(bufs[x]) == 0
    ensures Chain(bufs, a + b) && Chain(bufs, a + ([x] + b)) && Bytes(bufs, a + b) == Bytes(bufs, a + ([x] + b))
  {
    OneEmpty(bufs, x);
    hide *;
    BytesJoin(bufs, [x], b);
    BytesJoin(bufs, a, [x] + b);
    BytesJoin(bufs, a, b);
    assert [] + Bytes(bufs, b) == Bytes(bufs, b);
  }

  /** An empty buffer is taken out of a chain. */
  lemma Cut(bufs: seq<Buf>, c: seq<nat>, k: nat)
    requires Chain(bufs, c) && k < |c| && Size(bufs[c[k]]) == 0
    ensures Chain(bufs, c[..k] + c[k + 1..]) && Bytes(bufs, c[..k] + c[k + 1..]) == Bytes(bufs, c)
  {
    hide Sane, Content, Size, Bytes;
    assert c == c[..k] + ([c[k]] + c[k + 1..]);
    CutParts(bufs, c[..k], c[k], c[k + 1..]);
  }

  lemma CutDistinct(c: seq<nat>, k: nat)
    requires NoDup(c) && k < |c|
    ensures NoDup(c[..k] + c[k + 1..]) && c[k] !in c[..k] + c[k + 1..]
  {
  }

  /** `n` bytes of the first buffer of the input were copied to the buffer being filled, which is passed on. */
  lemma Copied(s: State, s': State, tag: nat, n: nat, d: Buf)
    requires Good(s, tag) && s.input != [] && s.buf.Some? && s.buf.value < |s.bufs| && s.input[0] < |s.bufs|
    requires Sane(s.bufs[s.input[0]]) && 0 < n <= Size(s.bufs[s.input[0]])
    requires Sane(d) && Writable(d) && d.tag == s.bufs[s.buf.value].tag && |d.area| == |s.bufs[s.buf.value].area|
    requires Content(d) == Content(s.bufs[s.input[0]])[..n]
    requires s' == s.(bufs := s.bufs[s.input[0] := Advanced(s.bufs[s.input[0]], n)][s.buf.value := d],
                      out := s.out + [s.buf.value], buf := None)
    ensures Good(s', tag) && Unsent(s') == Unsent(s)
  {
    hide Content, Sane, Blank;
    CopiedBytes(s, s', tag, n, d);
    CopiedPlaces(s, s', tag, d);
  }

  lemma CopiedBytes(s: State, s': State, tag: nat, n: nat, d: Buf)
    requires Good(s, tag) && s.input != [] && s.buf.Some? && s.buf.value < |s.bufs| && s.input[0] < |s.bufs|
    requires Sane(s.bufs[s.input[0]]) && 0 < n <= Size(s.bufs[s.input[0]])
    requires Sane(d) && d.temporary && Content(d) == Content(s.bufs[s.input[0]])[..n]
    requires s' == s.(bufs := s.bufs[s.input[0] := Advanced(s.bufs[s.input[0]], n)][s.buf.value := d],
                      out := s.out + [s.buf.value], buf := None)
    ensures Lines(s') && Unsent(s') == Unsent(s)
  {
    hide Content, Sane, Blank, Advanced, Special, Size, Chain, NoDup, Loaded, Bytes;
    var src, dst := s.input[0], s.buf.value;
    var done, rest := s.pending + s.out, s.input[1..];
    var bufs, bufs' := s.bufs, s'.bufs;
    assert dst !in Line(s) && dst !in Due(s);
    assert Line(s) == done + [src] + rest && Line(s') == done + [dst] + [src] + rest;
    assert Line(s) == done + s.input && Line(s') == done + [dst] + s.input;
    assert Due(s) == (s.busy + s.out) + s.input && Due(s') == (s.busy + s.out) + [dst] + s.input;
    Between(done, s.input, dst);
    Between(s.busy + s.out, s.input, dst);
    Parts(bufs, done, src, rest);
    Untouched(bufs, bufs', done, src, dst);
    Untouched(bufs, bufs', rest, src, dst);
    AdvancedContent(bufs[src], n);
    StaysChain(bufs, bufs', Due(s), Due(s'), dst);
    SingleChain(bufs, src);
    SingleChain(bufs', dst);
    Joined(bufs, done, [], src, rest);
    Joined(bufs', done, [dst], src, rest);
    assert done + [] + [src] + rest == Line(s);
    assert s'.pending + s'.out == done + [dst];
    FilledSize(d, bufs[src], n);
    LoadedMore(bufs, bufs', done, dst);
  }

  lemma SingleChain(bufs: seq<Buf>, x: nat)
    requires x < |bufs| && Sane(bufs[x])
    ensures Chain(bufs, [x]) && Chain(bufs, [])
  {
  }

  lemma StaysChain(bufs: seq<Buf>, bufs': seq<Buf>, c: seq<nat>, c': seq<nat>, x: nat)
    requires Chain(bufs, c) && |bufs'| == |bufs| && forall y :: y in c' ==> y in c || y == x
    requires forall y :: 0 <= y < |bufs| && Sane(bufs[y]) ==> Sane(bufs'[y])
    requires x < |bufs| && Sane(bufs'[x])
    ensures Chain(bufs', c')
  {
    hide Sane;
    forall i | 0 <= i < |c'| ensures c'[i] < |bufs'| && Sane(bufs'[c'[i]]) {
      assert c'[i] in c';
    }
  }

  lemma LoadedMore(bufs: seq<Buf>, bufs': seq<Buf>, c: seq<nat>, x: nat)
    requires Chain(bufs, c) && Loaded(bufs, c) && Chain(bufs', c) && forall i :: 0 <= i < |c| ==>
             bufs'[c[i]] == bufs[c[i]]
    requires x < |bufs'| && Sane(bufs'[x]) && Size(bufs'[x]) > 0
    ensures Chain(bufs', c + [x]) && Loaded(bufs', c + [x])
  {
  }

  lemma AdvancedContent(b: Buf, n: nat)
    requires Sane(b) && n <= Size(b)
    ensures Sane(Advanced(b, n)) && Content(b) == Content(b)[..n] + Content(Advanced(b, n))
  {
  }

  lemma FilledSize(d: Buf, b: Buf, n: nat)
    requires Sane(d) && Sane(b) && d.temporary && 0 < n <= Size(b) && Content(d) == Content(b)[..n]
    ensures Size(d) > 0 && !Special(d)
  {
  }

  /** Something new between two parts of a sequence. */
  lemma Between(c: seq<nat>, d: seq<nat>, x: nat)
    requires NoDup(c + d) && x !in c + d
    ensures NoDup(c + [x] + d)
  {
    var e := c + [x] + d;
    forall i, j | 0 <= i < j < |e| ensures e[i] != e[j] {
      var i', j' := if i < |c| then i else i - 1, if j < |c| then j else j - 1;
      assert i != |c| ==> e[i] == (c + d)[i'];
      assert j != |c| ==> e[j] == (c + d)[j'];
    }
  }

  lemma Parts(bufs: seq<Buf>, c: seq<nat>, x: nat, d: seq<nat>)
    requires Chain(bufs, c + [x] + d) && NoDup(c + [x] + d)
    ensures Chain(bufs, c) && Chain(bufs, d) && x !in c && x !in d
    ensures forall y :: y in c + [x] + d <==> y in c || y == x || y in d
  {
    hide Sane;
    var e := c + [x] + d;
    assert e[|c|] == x;
    forall i | 0 <= i < |c| ensures e[i] == c[i] {
    }
    forall i | 0 <= i < |d| ensures e[|c| + 1 + i] == d[i] {
    }
  }

  /** Changing two buffers leaves the others as they are. */
  lemma Untouched(bufs: seq<Buf>, bufs': seq<Buf>, c: seq<nat>, src: nat, dst: nat)
    requires |bufs'| == |bufs| && Chain(bufs, c) && src !in c && dst !in c
    requires forall x :: 0 <= x < |bufs| && x != src && x != dst ==> bufs'[x] == bufs[x]
    ensures Chain(bufs', c) && Bytes(bufs', c) == Bytes(bufs, c)
    ensures forall i :: 0 <= i < |c| ==> bufs'[c[i]] == bufs[c[i]]
  {
    hide Sane, Content, Bytes;
    forall i | 0 <= i < |c| ensures bufs'[c[i]] == bufs[c[i]] {
      UntouchedAt(bufs, bufs', c, src, dst, i);
    }
    BytesSame(bufs, bufs', c);
  }

  lemma UntouchedAt(bufs: seq<Buf>, bufs': seq<Buf>, c: seq<nat>, src: nat, dst: nat, i: nat)
    requires |bufs'| == |bufs| && src !in c && dst !in c && i < |c| && c[i] < |bufs|
    requires forall x :: 0 <= x < |bufs| && x != src && x != dst ==> bufs'[x] == bufs[x]
    ensures bufs'[c[i]] == bufs[c[i]]
  {
    assert c[i] in c;
  }

  lemma Joined(bufs: seq<Buf>, c: seq<nat>, e: seq<nat>, x: nat, d: seq<nat>)
    requires Chain(bufs, c) && Chain(bufs, e) && Chain(bufs, d) && x < |bufs| && Sane(bufs[x]) && |e| <= 1
    ensures Chain(bufs, c + e + [x] + d)
    ensures Bytes(bufs, c + e + [x] + d)
         == Bytes(bufs, c) + (if e == [] then [] else Content(bufs[e[0]])) + Content(bufs[x]) + Bytes(bufs, d)
  {
    hide Sane, Content;
    BytesJoin(bufs, c, e);
    BytesJoin(bufs, c + e, [x]);
    BytesJoin(bufs, c + e + [x], d);
    assert Bytes(bufs, [x]) == Content(bufs[x]);
    if e != [] {
      assert e == [e[0]];
      assert Bytes(bufs, e) == Content(bufs[e[0]]);
    }
  }

  lemma CopiedPlaces(s: State, s': State, tag: nat, d: Buf)
    requires Good(s, tag) && s.input != [] && s.buf.Some? && s.buf.value < |s.bufs| && s.input[0] < |s.bufs|
    requires |s'.bufs| == |s.bufs| && s'.bufs[s.buf.value] == d
    requires s'.bufs[s.input[0]].tag == s.bufs[s.input[0]].tag
    requires forall x :: 0 <= x < |s.bufs| && x != s.input[0] && x != s.buf.value ==> s'.bufs[x] == s.bufs[x]
    requires Writable(d) && d.tag == s.bufs[s.buf.value].tag && |d.area| == |s.bufs[s.buf.value].area|
    requires s' == s.(bufs := s'.bufs, out := s.out + [s.buf.value], buf := None)
    ensures Places(s', tag)
  {
    hide Sane, Content, Blank, Lines;
    var src, dst := s.input[0], s.buf.value;
    forall x ensures x in Due(s') <==> x in Due(s) || x == dst {
      assert x in Due(s') <==> x in s.busy || x in s.out || x == dst || x in s.input;
    }
    forall x ensures x in Line(s') <==> x in Line(s) || x == dst {
      assert x in Line(s') <==> x in s.pending || x in s.out || x == dst || x in s.input;
    }
    assert src in Line(s);
  }

  // ----- buffers of the chain's own

  lemma ChainMore(bufs: seq<Buf>, b: Buf, c: seq<nat>)
    requires Chain(bufs, c)
    ensures Chain(bufs + [b], c) && Bytes(bufs + [b], c) == Bytes(bufs, c)
  {
    hide Sane, Content;
    forall i | 0 <= i < |c| ensures (bufs + [b])[c[i]] == bufs[c[i]] {
    }
    BytesSame(bufs, bufs + [b], c);
  }

  /** A new buffer. */
  lemma Allocated(s: State, s': State, tag: nat, b: Buf)
    requires Good(s, tag) && s.buf.None? && Blank(b)
    requires s' == s.(bufs := s.bufs + [b], buf := Some(|s.bufs|))
    ensures Good(s', tag) && Unsent(s') == Unsent(s)
  {
    hide Lines, Places, Unsent, Blank;
    AllocatedLines(s, s', b);
    AllocatedPlaces(s, s', tag, b);
  }

  lemma AllocatedLines(s: State, s': State, b: Buf)
    requires Lines(s) && s' == s.(bufs := s.bufs + [b], buf := Some(|s.bufs|))
    ensures Lines(s') && Unsent(s') == Unsent(s)
    ensures forall x <- Line(s) + Due(s) :: x < |s.bufs|
  {
    hide Sane, Content, Bytes, NoDup, Loaded;
    ChainMore(s.bufs, b, Line(s));
    ChainMore(s.bufs, b, Due(s));
    ChainMore(s.bufs, b, s.pending + s.out);
    MoreLoaded(s.bufs, b, s.pending + s.out);
  }

  lemma MoreLoaded(bufs: seq<Buf>, b: Buf, c: seq<nat>)
    requires Chain(bufs, c) && Loaded(bufs, c)
    ensures Chain(bufs + [b], c) && Loaded(bufs + [b], c)
  {
    hide Sane, Content;
    forall i | 0 <= i < |c| ensures (bufs + [b])[c[i]] == bufs[c[i]] {
    }
  }

  lemma AllocatedPlaces(s: State, s': State, tag: nat, b: Buf)
    requires Places(s, tag) && s.buf.None? && Blank(b) && forall x <- Line(s) + Due(s) :: x < |s.bufs|
    requires s' == s.(bufs := s.bufs + [b], buf := Some(|s.bufs|))
    ensures Places(s', tag)
  {
    hide Sane, NoDup;
    var x := |s.bufs|;
    assert Line(s') == Line(s) && Due(s') == Due(s);
    assert x !in Line(s) + Due(s);
    forall i | 0 <= i < |s.free| ensures Spare(s', s.free[i]) {
      assert Spare(s, s.free[i]);
    }
  }

  lemma TaggedMore(bufs: seq<Buf>, b: Buf, tag: nat)
    ensures Tagged(bufs + [b], tag) == Tagged(bufs, tag) + if b.tag == tag then 1 else 0
  {
    assert (bufs + [b])[..|bufs|] == bufs;
  }

  lemma {:induction false} TaggedSame(bufs: seq<Buf>, bufs': seq<Buf>, tag: nat)
    requires |bufs'| == |bufs| && forall x :: 0 <= x < |bufs| ==> bufs'[x].tag == bufs[x].tag
    ensures Tagged(bufs', tag) == Tagged(bufs, tag)
  {
    if bufs != [] {
      TaggedSame(bufs[..|bufs| - 1], bufs'[..|bufs| - 1], tag);
    }
  }

  /** A free buffer is taken. */
  lemma Reused(s: State, s': State, tag: nat)
    requires Good(s, tag) && s.buf.None? && s.free != []
    requires s' == s.(buf := Some(s.free[0]), free := s.free[1..])
    ensures Good(s', tag) && Unsent(s') == Unsent(s)
  {
    hide Sane, Content, Lines, Blank;
    assert Lines(s') && Unsent(s') == Unsent(s) by {
      SameLines(s, s');
    }
    forall i | 0 <= i < |s'.free|
      ensures Spare(s', s'.free[i]) && s.bufs[s'.free[i]].tag == tag && s'.free[i] != s.free[0]
    {
      assert s'.free[i] == s.free[i + 1] && Spare(s, s.free[i + 1]);
    }
    assert Spare(s, s.free[0]);
    forall x | 0 <= x < |s.bufs| && s.bufs[x].tag == tag && x in s.free ensures s'.buf == Some(x) || x in s'.free {
      assert s.free == [s.free[0]] + s'.free;
    }
  }

  lemma SameLines(s: State, s': State)
    requires Lines(s) && s'.bufs == s.bufs && Line(s') == Line(s) && Due(s') == Due(s)
    requires s'.pending == s.pending && s'.out == s.out
    ensures Lines(s') && Unsent(s') == Unsent(s)
  {
  }

  // ----- sending and giving back

  /** The filter takes the chain that was put together and sends `n` bytes of what it has. */
  lemma Sent(s: State, s': State, tag: nat, n: nat)
    requires Good(s, tag) && n <= |Bytes(s.bufs, s.pending + s.out)|
    requires OnlySent(s.bufs, s'.bufs, s.pending + s.out) && Chain(s'.bufs, s.pending + s.out)
    requires |s'.pending| <= |s.pending + s.out|
    requires s'.pending == (s.pending + s.out)[|s.pending + s.out| - |s'.pending|..]
    requires Chain(s'.bufs, s'.pending) && Loaded(s'.bufs, s'.pending)
    requires Bytes(s'.bufs, s'.pending) == Bytes(s.bufs, s.pending + s.out)[n..]
    requires s' == s.(bufs := s'.bufs, pending := s'.pending, out := [], busy := s.busy + s.out)
    ensures Good(s', tag) && Bytes(s.bufs, s.pending + s.out)[..n] + Unsent(s') == Unsent(s)
  {
    hide Sane, Content, Blank, Spare, Special, Size, Loaded, Chain, NoDup, Places, Bytes, OnlySent;
    var given := s.pending + s.out;
    var gone := |given| - |s'.pending|;
    assert Line(s) == given + s.input && Line(s') == s'.pending + s.input && Due(s') == Due(s);
    assert Line(s') == Line(s)[gone..];
    assert s'.pending + s'.out == s'.pending;
    SentChain(s.bufs, s'.bufs, given, s.input);
    BytesJoin(s.bufs, given, s.input);
    BytesJoin(s'.bufs, s'.pending, s.input);
    SentDue(s.bufs, s'.bufs, given, Due(s));
    DistinctRest(Line(s), gone);
    forall x | x in s'.pending ensures x in given {
    }
    SentPlaces(s, s', tag);
  }

  lemma DistinctRest(c: seq<nat>, k: nat)
    requires NoDup(c) && k <= |c|
    ensures NoDup(c[k..])
  {
  }

  lemma SentDue(bufs: seq<Buf>, bufs': seq<Buf>, c: seq<nat>, d: seq<nat>)
    requires OnlySent(bufs, bufs', c) && Chain(bufs', c) && Chain(bufs, d)
    ensures Chain(bufs', d)
  {
    hide Sane;
    forall i | 0 <= i < |d| ensures Sane(bufs'[d[i]]) {
      SentSane(bufs, bufs', c, d[i]);
    }
  }

  lemma SentSane(bufs: seq<Buf>, bufs': seq<Buf>, c: seq<nat>, x: nat)
    requires OnlySent(bufs, bufs', c) && Chain(bufs', c) && x < |bufs| && Sane(bufs[x])
    ensures Sane(bufs'[x])
  {
    hide Sane;
    if x in c {
      var i :| 0 <= i < |c| && c[i] == x;
    }
  }

  lemma SentChain(bufs: seq<Buf>, bufs': seq<Buf>, c: seq<nat>, d: seq<nat>)
    requires OnlySent(bufs, bufs', c) && Chain(bufs, c + d) && NoDup(c + d)
    ensures Chain(bufs, c) && Chain(bufs, d) && Chain(bufs', d) && Bytes(bufs', d) == Bytes(bufs, d)
  {
    hide Sane, Content;
    forall i | 0 <= i < |c| ensures c[i] == (c + d)[i] {
    }
    forall i | 0 <= i < |d|
      ensures d[i] < |bufs| && Sane(bufs[d[i]]) && bufs'[d[i]] == bufs[d[i]]
    {
      assert d[i] == (c + d)[|c| + i];
      forall j | 0 <= j < |c| ensures c[j] != d[i] {
        assert (c + d)[j] == c[j];
      }
    }
    BytesSame(bufs, bufs', d);
  }

  lemma SentPlaces(s: State, s': State, tag: nat)
    requires Places(s, tag) && OnlySent(s.bufs, s'.bufs, s.pending + s.out)
    requires forall x :: x in s'.pending ==> x in s.pending + s.out
    requires s' == s.(bufs := s'.bufs, pending := s'.pending, out := [], busy := s.busy + s.out)
    ensures Places(s', tag)
  {
    hide Sane;
    assert Due(s') == Due(s);
    forall x | x in Line(s') ensures x in Line(s) {
    }
    forall x | Spare(s, x) ensures Spare(s', x) {
      assert x !in s.pending + s.out;
    }
  }

  /** A buffer of somebody else was sent. */
  lemma Dropped(s: State, s': State, tag: nat)
    requires Good(s, tag) && s.out == [] && s.busy != [] && s.busy[0] < |s.bufs| && s.bufs[s.busy[0]].tag != tag
    requires s' == s.(busy := s.busy[1..])
    ensures Good(s', tag) && Unsent(s') == Unsent(s)
  {
    hide Sane, Content, Blank;
    assert Due(s') == Due(s)[1..] && Line(s') == Line(s);
    forall x ensures x in Due(s) <==> x in Due(s') || x == s.busy[0] {
      assert Due(s) == [s.busy[0]] + Due(s');
    }
  }

  /** A buffer of the chain's own was sent and is free again. */
  lemma Released(s: State, s': State, tag: nat)
    requires Good(s, tag) && s.out == [] && s.busy != [] && s.busy[0] < |s.bufs| && s.bufs[s.busy[0]].tag == tag
    requires Size(s.bufs[s.busy[0]]) == 0
    requires s' == s.(bufs := s.bufs[s.busy[0] := s.bufs[s.busy[0]].(pos := 0, last := 0)], busy := s.busy[1..],
                      free := [s.busy[0]] + s.free)
    ensures Good(s', tag) && Unsent(s') == Unsent(s)
  {
    hide Content, Blank, Sane;
    var x := s.busy[0];
    NotWaiting(s, tag, x);
    assert Due(s)[0] == x && Line(s') == Line(s);
    assert Due(s) == [] + [x] + Due(s') && s.pending + s.out == s.pending == s'.pending + s'.out;
    Parts(s.bufs, [], x, Due(s'));
    DistinctRest(Due(s), 1);
    Untouched(s.bufs, s'.bufs, Line(s), x, x);
    Untouched(s.bufs, s'.bufs, Due(s'), x, x);
    assert x !in s.pending;
    Untouched(s.bufs, s'.bufs, s.pending, x, x);
    ReleasedPlaces(s, s', tag);
  }

  /** A buffer of the chain's own that was sent is not with the filter any more. */
  lemma NotWaiting(s: State, tag: nat, x: nat)
    requires Good(s, tag) && s.out == [] && x < |s.bufs| && s.bufs[x].tag == tag && Size(s.bufs[x]) == 0
    ensures x !in Line(s)
  {
    hide Content, Sane, Blank;
    forall i | 0 <= i < |s.pending| ensures s.pending[i] != x {
      assert (s.pending + s.out)[i] == s.pending[i];
    }
  }

  lemma ReleasedPlaces(s: State, s': State, tag: nat)
    requires Good(s, tag) && s.out == [] && s.busy != [] && s.busy[0] < |s.bufs| && s.bufs[s.busy[0]].tag == tag
    requires s.busy[0] !in Line(s) && s.busy[0] !in Due(s') && Size(s.bufs[s.busy[0]]) == 0 && Sane(s.bufs[s.busy[0]])
    requires s' == s.(bufs := s.bufs[s.busy[0] := s.bufs[s.busy[0]].(pos := 0, last := 0)], busy := s.busy[1..],
                      free := [s.busy[0]] + s.free)
    ensures Places(s', tag)
  {
    hide Content, Lines;
    var x := s.busy[0];
    assert Line(s') == Line(s);
    forall y ensures y in Due(s) <==> y in Due(s') || y == x {
      assert Due(s) == [x] + Due(s');
    }
    assert Blank(s'.bufs[x]) && Spare(s', x);
    forall i | 0 <= i < |s.free| ensures Spare(s', s.free[i]) && s.free[i] != x {
      assert Spare(s, s.free[i]);
    }
    assert s.buf.Some? ==> Spare(s, s.buf.value) && s.buf.value != x;
    assert forall y :: y in s'.free <==> y in s.free || y == x;
  }

  // ----- steps that only the contents of buffers depend on

  /** A buffer of the input changes, but for its bytes and its tag. */
  lemma Retold(s: State, s': State, tag: nat, x: nat, b: Buf)
    requires Good(s, tag) && x in s.input && x < |s.bufs| && s' == s.(bufs := s.bufs[x := b]) && Sane(s.bufs[x])
    requires Sane(b) && Content(b) == Content(s.bufs[x]) && b.tag == s.bufs[x].tag
    ensures Good(s', tag) && Unsent(s') == Unsent(s)
  {
    hide Sane, Content, Blank;
    assert x in Line(s) && x !in s.pending + s.out by {
      InputOnly(s, x);
    }
    forall i | 0 <= i < |Line(s)| ensures Sane(s'.bufs[Line(s)[i]]) {
    }
    BytesSame(s.bufs, s'.bufs, Line(s));
    Untouched(s.bufs, s'.bufs, s.pending + s.out, x, x);
    assert Places(s', tag) by {
      RetoldPlaces(s, s', tag, x, b);
    }
  }

  lemma InputOnly(s: State, x: nat)
    requires Lines(s) && x in s.input
    ensures x in Line(s) && x !in s.pending + s.out
  {
    hide Sane, Loaded;
    var done := s.pending + s.out;
    var k :| 0 <= k < |s.input| && s.input[k] == x;
    assert Line(s)[|done| + k] == x;
    forall j | 0 <= j < |done| ensures done[j] != x {
      assert Line(s)[j] == done[j];
    }
  }

  lemma RetoldPlaces(s: State, s': State, tag: nat, x: nat, b: Buf)
    requires Places(s, tag) && x in s.input && x < |s.bufs| && s' == s.(bufs := s.bufs[x := b])
             && b.tag == s.bufs[x].tag
    ensures Places(s', tag)
  {
    hide Blank;
    assert x in Line(s) && Line(s') == Line(s) && Due(s') == Due(s);
  }

  /** What is left to do. */
  ghost function Work(bufs: seq<Buf>, c: seq<nat>): nat {
    if c == [] then 0
    else (if c[0] < |bufs| && Size(bufs[c[0]]) > 0 then Size(bufs[c[0]]) else 0) + 1 + Work(bufs, c[1..])
  }

  lemma {:induction false} WorkSame(bufs: seq<Buf>, bufs': seq<Buf>, c: seq<nat>)
    requires forall i :: 0 <= i < |c| ==> c[i] < |bufs| && c[i] < |bufs'| && Size(bufs'[c[i]]) == Size(bufs[c[i]])
    ensures Work(bufs', c) == Work(bufs, c)
  {
    if c != [] {
      WorkSame(bufs, bufs', c[1..]);
    }
  }

  /** More buffers are submitted. */
  lemma Submitted(s: State, s': State, tag: nat, c: seq<nat>)
    requires Good(s, tag) && s.out == [] && Good(s', tag) && s' == s.(input := s.input + c)
    ensures Chain(s.bufs, c) && Unsent(s') == Unsent(s) + Bytes(s.bufs, c)
  {
    hide Sane, Content, Places, NoDup, Loaded;
    assert Line(s') == Line(s) + c;
    forall i | 0 <= i < |c| ensures c[i] < |s.bufs| && Sane(s.bufs[c[i]]) {
      assert Line(s')[|Line(s)| + i] == c[i];
    }
    BytesJoin(s.bufs, Line(s), c);
  }

  /** The bytes that the filter has come first. */
  lemma PendingFirst(s: State)
    requires Lines(s)
    ensures Chain(s.bufs, s.pending) && Bytes(s.bufs, s.pending) <= Unsent(s)
  {
    hide Sane, Content, NoDup, Loaded;
    var rest := s.out + s.input;
    assert Line(s) == s.pending + rest;
    forall i | 0 <= i < |s.pending| ensures s.pending[i] < |s.bufs| && Sane(s.bufs[s.pending[i]]) {
      assert Line(s)[i] == s.pending[i];
    }
    forall i | 0 <= i < |rest| ensures rest[i] < |s.bufs| && Sane(s.bufs[rest[i]]) {
      assert Line(s)[|s.pending| + i] == rest[i];
    }
    BytesJoin(s.bufs, s.pending, rest);
  }

  /** An empty buffer with the first `n` bytes of another one in its memory, and in its file if both may be used. */
  function Filled(dst: Buf, src: Buf, n: nat, direct: bool): (r: Buf)
    requires Sane(src) && Blank(dst) && n <= Size(src) && n <= |dst.area|
    ensures Sane(r) && Content(r) == Content(src)[..n]
    ensures Writable(r) && r.tag == dst.tag && |r.area| == |dst.area| && (r.inFile <==> src.inFile && direct)
    ensures r.inFile ==> r.file == src.file
    ensures r.flush == dst.flush && r.lastBuf == dst.lastBuf && r.lastInChain == dst.lastInChain
  {
    var copy := dst.(area := Content(src)[..n] + dst.area[n..], last := dst.last + n);
    var r := if src.inFile && direct then
        copy.(inFile := true, file := src.file, filePos := src.filePos, fileLast := src.filePos + n)
      else copy.(inFile := false);
    FilledContent(r, dst.area, src, n);
    r
  }

  /** The end of the bytes of `src` ends what `src` ends. */
  function Marked(b: Buf, src: Buf): (r: Buf)
    requires Sane(b) && Writable(b)
    ensures Sane(r) && Content(r) == Content(b)
    ensures Writable(r) && r.tag == b.tag && |r.area| == |b.area| && r.inFile == b.inFile && r.file == b.file
    ensures r.flush == src.flush && r.lastBuf == src.lastBuf && r.lastInChain == src.lastInChain
  {
    var r := b.(flush := src.flush, lastBuf := src.lastBuf, lastInChain := src.lastInChain);
    SameContent(b, r);
    r
  }

  lemma SameContent(b: Buf, b': Buf)
    requires Sane(b) && b.temporary && b' == b.(flush := b'.flush, lastBuf := b'.lastBuf, lastInChain := b'.lastInChain)
    ensures Sane(b') && Content(b') == Content(b)
  {
  }

  lemma FilledContent(d: Buf, area: seq<byte>, src: Buf, n: nat)
    requires Sane(src) && n <= Size(src) && n <= |area|
    requires d.temporary && d.pos == 0 && d.last == n && d.area == Content(src)[..n] + area[n..]
    requires d.inFile ==> d.file.Some? && d.fileLast == d.filePos + n
    ensures Sane(d) && Content(d) == Content(src)[..n] && |d.area| == |area|
  {
    assert Content(d) == d.area[0..n];
  }

  lemma EmptyGood(s: State, tag: nat)
    requires s == State([], [], [], [], None, [], [])
    ensures Good(s, tag) && Unsent(s) == [] && Tagged(s.bufs, tag) == 0 && HeadWaits(s)
  {
    hide Lines, Places;
    EmptyLines(s);
    EmptyPlaces(s, tag);
  }

  lemma EmptyLines(s: State)
    requires s == State([], [], [], [], None, [], [])
    ensures Lines(s) && Unsent(s) == []
  {
    hide Sane, Content, Special, Size;
    assert Line(s) == [];
    assert Due(s) == [];
    assert s.pending + s.out == [];
  }

  lemma EmptyPlaces(s: State, tag: nat)
    requires s == State([], [], [], [], None, [], [])
    ensures Places(s, tag)
  {
    hide Spare;
  }

  /** Chains of a good state. */
  lemma InputHead(s: State)
    requires Lines(s) && s.input != []
    ensures s.input[0] < |s.bufs| && Sane(s.bufs[s.input[0]])
  {
    assert Line(s)[|s.pending + s.out|] == s.input[0];
  }

  /** A buffer to copy to is not busy and is not one to copy from. */
  lemma SpareApart(s: State, x: nat)
    requires Lines(s) && Spare(s, x) && s.input != []
    ensures x != s.input[0] && (s.busy != [] ==> x != s.busy[0] && s.input[0] != s.busy[0])
    ensures forall i :: 0 < i < |s.input| ==> s.input[i] != s.input[0] && s.input[i] != x
    ensures forall i :: 0 < i < |s.input| ==> s.input[i] < |s.bufs|
  {
    hide Sane, Blank, Loaded;
    var n, m := |s.pending + s.out|, |s.busy + s.out|;
    assert Line(s)[n] == s.input[0] == Due(s)[m];
    assert s.busy != [] ==> Due(s)[0] == s.busy[0];
    forall i | 0 < i < |s.input| ensures s.input[i] != s.input[0] && s.input[i] != x && s.input[i] < |s.bufs| {
      assert Line(s)[n + i] == s.input[i];
    }
  }

  /** Copying leaves less to do. */
  lemma CopiedWork(s: State, bufs': seq<Buf>, n: nat, d: Buf)
    requires Lines(s) && s.input != [] && s.buf.Some? && Spare(s, s.buf.value) && s.input[0] < |s.bufs|
    requires Sane(s.bufs[s.input[0]]) && 0 < n <= Size(s.bufs[s.input[0]])
    requires bufs' == s.bufs[s.input[0] := Advanced(s.bufs[s.input[0]], n)][s.buf.value := d]
    ensures Work(bufs', s.input) == Work(s.bufs, s.input) - n
    ensures Size(bufs'[s.input[0]]) == Size(s.bufs[s.input[0]]) - n
    ensures HeadWaits(s) ==> HeadWaits(s.(bufs := bufs'))
  {
    hide Lines, Blank, Sane, Advanced, Size;
    SpareApart(s, s.buf.value);
    AdvancedSize(s.bufs[s.input[0]], n);
    WorkSame(s.bufs, bufs', s.input[1..]);
  }

  class Ctx {
    var bufs: seq<Buf>
    var input: seq<nat>
    var buf: Option<nat>
    var free: seq<nat>
    var busy: seq<nat>
    var pending: seq<nat>
    var allotted: nat
    var directio: bool
    var aio: bool
    const sendfile: bool
    const needInMemory: bool
    const needInTemp: bool
    const alignment: nat
    const num: nat
    const size: nat
    const tag: nat
    ghost var sent: seq<byte>
    ghost var submitted: seq<byte>
    /** How often the filter was called. */
    ghost var calls: nat

    ghost function S(out: seq<nat>): State
      reads this
    {
      State(bufs, pending, out, input, buf, free, busy)
    }

    /** The configuration, and an empty chain. */
    constructor (sendfile: bool, needInMemory: bool, needInTemp: bool, alignment: nat, num: nat, size: nat, tag: nat)
      requires alignment > 0 && size > 0 && tag != 0
      ensures Valid() && submitted == [] && sent == [] && !aio && !directio && allotted == 0 && calls == 0
      ensures this.sendfile == sendfile && this.needInMemory == needInMemory && this.needInTemp == needInTemp
      ensures this.alignment == alignment && this.num == num && this.size == size && this.tag == tag
    {
      hide Lines, Places, Unsent, Tagged, HeadWaits;
      this.sendfile, this.needInMemory, this.needInTemp := sendfile, needInMemory, needInTemp;
      this.alignment, this.num, this.size, this.tag := alignment, num, size, tag;
      bufs, input, buf, free, busy, pending := [], [], None, [], [], [];
      allotted, directio, aio := 0, false, false;
      sent, submitted, calls := [], [], 0;
      new;
      EmptyGood(S([]), tag);
    }

    /** Every byte submitted was sent or waits, in order; the buffers allocated are at most as many as
        configured; the busy chain does not start with a buffer that could be given back. */
    ghost predicate Holds(s: State)
      reads this
    {
      && Good(s, tag) && sent + Unsent(s) == submitted
      && allotted == Tagged(s.bufs, tag) && allotted <= num
      && alignment > 0 && size > 0 && tag != 0 && HeadWaits(s)
    }

    /** The state while the chain `out` is put together. */
    ghost predicate Core(out: seq<nat>)
      reads this
    {
      Holds(S(out))
    }

    /** A buffer is being filled only while the first buffer of the input waits to be copied. */
    ghost predicate Filling()
      reads this
    {
      FillingFor(S([]), directio)
    }

    ghost predicate FillingFor(s: State, direct: bool) {
      s.buf.Some? ==>
        && s.input != [] && s.input[0] < |s.bufs| && Size(s.bufs[s.input[0]]) > 0 && !Passes(s.bufs[s.input[0]])
        && (DirectFile(s.bufs[s.input[0]]) ==> direct)
    }

    ghost predicate Valid()
      reads this
    {
      Core([]) && Filling()
    }

    /** A buffer of the input that need not be copied. */
    predicate Passes(b: Buf) {
      || Special(b)
      || (!(b.inFile && DirectFile(b)) && (sendfile || InMemory(b))
          && (needInMemory ==> InMemory(b)) && !(needInTemp && (b.memory || b.mmap)))
    }

    /** A buffer as the filter can take it: what is to be sent from a file is allowed to and was not opened to be
        read past the page cache, and the bytes are in memory, which may be changed, if the filter needs that. */
    predicate Takes(b: Buf) {
      || Special(b)
      || (&& (b.inFile ==> sendfile && !DirectFile(b)) && (sendfile || InMemory(b))
          && (needInMemory ==> InMemory(b)) && (needInTemp ==> !b.memory && !b.mmap))
    }

    ghost predicate AllTaken(bufs: seq<Buf>, out: seq<nat>) {
      forall i :: 0 <= i < |out| ==> out[i] < |bufs| && Takes(bufs[out[i]])
    }

    /** Of the buffers `all`, as they were in `was`, all but `left` were dealt with: those that need not be copied
        are in the chain, and no others. */
    ghost predicate Routed(was: seq<Buf>, all: seq<nat>, left: seq<nat>, out: seq<nat>) {
      && |left| <= |all| && left == all[|all| - |left|..]
      && forall i :: 0 <= i < |all| - |left| ==>
           all[i] < |was| && (all[i] in out <==> (Special(was[all[i]]) || Size(was[all[i]]) > 0) && Passes(was[all[i]]))
    }

    /** What is left of the input will be dealt with as it would have been before, and what can be copied to is not
        among the buffers `all`. */
    ghost predicate Steady(was: seq<Buf>, all: seq<nat>, s: State) {
      && (forall i :: 0 <= i < |s.input| ==> s.input[i] < |s.bufs| && s.input[i] < |was|
                                             && Alike(was[s.input[i]], s.bufs[s.input[i]]))
      && (s.buf.Some? ==> s.buf.value !in all) && (forall i :: 0 <= i < |s.free| ==> s.free[i] !in all)
      && (forall i :: 0 <= i < |all| ==> all[i] < |was|) && |was| <= |s.bufs|
    }

    ghost predicate Alike(b: Buf, b': Buf) {
      && (Passes(b') <==> Passes(b)) && (Special(b') <==> Special(b)) && (Size(b') > 0 <==> Size(b) > 0)
    }

    /** How far the chain `s.out` is put together from the buffers `all`. */
    ghost predicate Course(was: seq<Buf>, all: seq<nat>, s: State, direct: bool) {
      && AllTaken(s.bufs, s.out) && Routed(was, all, s.input, s.out) && Steady(was, all, s) && FillingFor(s, direct)
      && NoDup(all)
    }

    lemma GatherStart(s: State, direct: bool)
      requires Good(s, tag) && s.out == [] && FillingFor(s, direct)
      ensures Course(s.bufs, s.input, s, direct)
    {
      hide Passes, Size, Sane, Chain, Loaded, FillingFor;
      InputThere(s, tag);
      InputDistinct(s);
      assert s.input[0..] == s.input;
    }

    lemma CourseEnds(was: seq<Buf>, all: seq<nat>, s: State, direct: bool)
      requires Course(was, all, s, direct)
      ensures AllTaken(s.bufs, s.out) && Routed(was, all, s.input, s.out) && FillingFor(s.(out := []), direct)
    {
      hide AllTaken, Routed, Steady, Passes;
    }

    /** The first buffer left was dealt with. */
    lemma RoutedHead(was: seq<Buf>, all: seq<nat>, left: seq<nat>, out: seq<nat>, pass: bool)
      requires Routed(was, all, left, out) && NoDup(all) && left != [] && left[0] !in out && left[0] < |was|
      requires pass <==> (Special(was[left[0]]) || Size(was[left[0]]) > 0) && Passes(was[left[0]])
      ensures Routed(was, all, left[1..], if pass then out + [left[0]] else out)
    {
      hide Passes, Size, Special;
      var n := |all| - |left|;
      assert all[n] == left[0] && left[1..] == all[n + 1..];
    }

    lemma RoutedCopy(was: seq<Buf>, all: seq<nat>, left: seq<nat>, out: seq<nat>, y: nat)
      requires Routed(was, all, left, out) && y !in all
      ensures Routed(was, all, left, out + [y])
    {
      hide Passes, Size, Special;
    }

    lemma TakenSame(bufs: seq<Buf>, bufs': seq<Buf>, out: seq<nat>)
      requires AllTaken(bufs, out)
      requires |bufs'| >= |bufs| && forall i :: 0 <= i < |out| && out[i] < |bufs| ==> bufs'[out[i]] == bufs[out[i]]
      ensures AllTaken(bufs', out)
    {
      hide Takes;
    }

    lemma SpecialPasses(b: Buf)
      ensures Special(b) ==> Passes(b)
    {
    }

    /** An empty buffer of the input is left out. */
    lemma CourseSkipped(was: seq<Buf>, all: seq<nat>, s: State, direct: bool)
      requires Course(was, all, s, direct) && Lines(s) && s.input != [] && s.input[0] < |s.bufs|
      requires Size(s.bufs[s.input[0]]) == 0 && !Special(s.bufs[s.input[0]])
      ensures Course(was, all, s.(input := s.input[1..]), direct)
    {
      hide Lines, Routed, AllTaken, Passes, Size, Special, NoDup;
      HeadApart(s);
      RoutedHead(was, all, s.input, s.out, false);
    }

    /** The first buffer of the input is passed on. */
    lemma CoursePassed(was: seq<Buf>, all: seq<nat>, s: State, direct: bool)
      requires Course(was, all, s, direct) && Lines(s) && s.input != [] && s.input[0] < |s.bufs|
      requires Takes(s.bufs[s.input[0]]) && Passes(s.bufs[s.input[0]])
      requires Size(s.bufs[s.input[0]]) > 0 || Special(s.bufs[s.input[0]])
      ensures Course(was, all, s.(input := s.input[1..], out := s.out + [s.input[0]]), direct)
    {
      hide Lines, Routed, Passes, Takes, Size, Special, NoDup;
      HeadApart(s);
      RoutedHead(was, all, s.input, s.out, true);
    }

    /** The first buffer of the input may no longer be sent from its file. */
    lemma CourseRetold(was: seq<Buf>, all: seq<nat>, s: State, s': State, direct: bool)
      requires Course(was, all, s, direct) && Lines(s) && s.input != [] && s' == s.(bufs := s'.bufs)
      requires |s'.bufs| == |s.bufs| && s.input[0] < |s.bufs|
      requires s'.bufs == s.bufs[s.input[0] := s'.bufs[s.input[0]]]
      requires Alike(s.bufs[s.input[0]], s'.bufs[s.input[0]])
      requires s'.bufs[s.input[0]].file == s.bufs[s.input[0]].file
      ensures Course(was, all, s', direct)
    {
      hide Lines, Routed, AllTaken, Passes, Size, Special, NoDup;
      HeadApart(s);
      TakenSame(s.bufs, s'.bufs, s.out);
    }

    /** There is something to copy to. */
    lemma CourseProvided(was: seq<Buf>, all: seq<nat>, s: State, s': State, direct: bool, direct': bool)
      requires Course(was, all, s, direct) && FillingFor(s'.(out := []), direct')
      requires |s'.bufs| >= |s.bufs| && s'.bufs[..|s.bufs|] == s.bufs && s'.input == s.input && s'.out == s.out
      requires forall i :: 0 <= i < |s'.free| ==> s'.free[i] in s.free
      requires s'.buf.Some? && s'.buf != s.buf ==> s'.buf.value in s.free || s'.buf.value >= |s.bufs|
      ensures Course(was, all, s', direct')
    {
      hide Routed, AllTaken, Alike, NoDup, FillingFor;
      forall x: nat | x < |s.bufs| ensures s'.bufs[x] == s.bufs[x] {
        assert s'.bufs[..|s.bufs|][x] == s.bufs[x];
      }
      TakenSame(s.bufs, s'.bufs, s.out);
      assert FillingFor(s', direct') by {
        FillingOut(s', direct');
      }
    }

    lemma FillingSame(s: State, s': State, direct: bool)
      requires FillingFor(s, direct) && s'.input == s.input && s'.buf == s.buf && SameAt(s.bufs, s'.bufs, s.input)
      ensures FillingFor(s', direct)
    {
    }

    /** More input does not concern the first buffer of what was there. */
    lemma MoreInput(s: State, c: seq<nat>, direct: bool)
      requires FillingFor(s, direct)
      ensures FillingFor(s.(input := s.input + c), direct)
      ensures HeadWaits(s) ==> HeadWaits(s.(input := s.input + c))
    {
    }

    lemma FillingOut(s: State, direct: bool)
      ensures FillingFor(s.(out := []), direct) <==> FillingFor(s, direct)
    {
    }

    /** A buffer was filled from the first one of the input. */
    lemma CourseCopied(was: seq<Buf>, all: seq<nat>, s: State, s': State, tag: nat, direct: bool)
      requires Course(was, all, s, direct) && Good(s, tag) && s.input != [] && s.buf.Some? && s'.buf.None?
      requires s.input[0] < |s.bufs| && OnlyCopied(s.bufs, s'.bufs, s.input[0], s.buf.value)
      requires s'.input == s.input[1..] || (s'.input == s.input && Size(s'.bufs[s.input[0]]) > 0)
      requires s'.free == s.free && s'.out == s.out + [s.buf.value]
      requires Size(s.bufs[s.input[0]]) > 0 && !Passes(s.bufs[s.input[0]])
      requires s.buf.value < |s'.bufs| && Takes(s'.bufs[s.buf.value])
      ensures Course(was, all, s', direct)
    {
      hide Lines, Places, Routed, Passes, Takes, Size, NoDup, OnlyCopied, Steady, FillingFor;
      SpareBuf(s, tag);
      SpareOutside(s, s.buf.value);
      HeadApart(s);
      SteadyHead(was, all, s);
      SteadyCopied(was, all, s, s');
      if s'.input != s.input {
        RoutedHead(was, all, s.input, s.out, false);
      }
      RoutedCopy(was, all, s'.input, s.out, s.buf.value);
      CopiedElsewhere(s.bufs, s'.bufs, s.input[0], s.buf.value, s.out);
      TakenSame(s.bufs, s'.bufs, s.out);
      NoneFilling(s', direct);
    }

    lemma NoneFilling(s: State, direct: bool)
      requires s.buf.None?
      ensures FillingFor(s, direct)
    {
    }

    lemma SteadyHead(was: seq<Buf>, all: seq<nat>, s: State)
      requires Steady(was, all, s) && s.input != [] && s.buf.Some?
      ensures s.input[0] < |was| && s.input[0] < |s.bufs| && Alike(was[s.input[0]], s.bufs[s.input[0]])
      ensures s.buf.value !in all
    {
      hide Alike;
    }

    lemma SteadyCopied(was: seq<Buf>, all: seq<nat>, s: State, s': State)
      requires Steady(was, all, s) && s.input != [] && s.buf.Some? && s'.buf.None? && s'.free == s.free
      requires s.input[0] < |s.bufs| && OnlyCopied(s.bufs, s'.bufs, s.input[0], s.buf.value)
      requires s'.input == s.input[1..] || (s'.input == s.input && Size(s'.bufs[s.input[0]]) > 0)
      requires Size(s.bufs[s.input[0]]) > 0 && NoDup(s.input) && s.buf.value !in s.input
      ensures Steady(was, all, s')
    {
      forall i | 0 <= i < |s'.input|
        ensures s'.input[i] < |s.bufs| && s'.input[i] < |was| && Alike(was[s'.input[i]], s'.bufs[s'.input[i]])
      {
        var x := s'.input[i];
        assert x in s.input && x != s.buf.value;
        var k := if s'.input == s.input then i else i + 1;
        assert s.input[k] == x;
        if x == s.input[0] {
          assert k == 0;
        }
      }
    }

    /** The first buffer of the input, of which only `inFile` may have been taken away. */
    lemma Verdict(b: Buf, b': Buf)
      requires b' == b || (!sendfile && InMemory(b) && !(b.inFile && DirectFile(b)) && b' == b.(inFile := false))
      ensures b' == b.(inFile := b'.inFile) && Alike(b, b')
      ensures (Passes(b') <==> Passes(b)) && (Special(b') <==> Special(b))
      ensures Passes(b) <==> Special(b) || (!(b.inFile && DirectFile(b)) && (sendfile || InMemory(b))
                                            && (needInMemory ==> InMemory(b)) && !(needInTemp && (b.memory || b.mmap)))
      ensures Passes(b) && (sendfile || Special(b) || b' == b.(inFile := false)) ==> Takes(b')
    {
    }

    /** A buffer of the input is no longer to be sent from its file. */
    method FromMemory(x: nat, ghost ahead: seq<nat>, ghost out: seq<nat>)
      requires Holds(S(out).(input := ahead)) && ahead != [] && ahead[0] == x < |bufs| && Sane(bufs[x])
      requires InMemory(bufs[x])
      modifies `bufs
      ensures Holds(S(out).(input := ahead)) && Work(bufs, ahead) == Work(old(bufs), ahead)
      ensures bufs == old(bufs)[x := old(bufs)[x].(inFile := false)] && Sane(bufs[x])
      ensures Size(bufs[x]) == Size(old(bufs)[x]) && Content(bufs[x]) == Content(old(bufs)[x])
    {
      hide Lines, Places, Unsent, Work, Tagged;
      ghost var s, b := S(out).(input := ahead), bufs[x].(inFile := false);
      bufs := bufs[x := bufs[x].(inFile := false)];
      Retold(s, S(out).(input := ahead), tag, x, b);
      TaggedSame(s.bufs, bufs, tag);
      WorkSame(s.bufs, bufs, ahead) by {
        InputThere(s, tag);
      }
    }

    /** ngx_output_chain_as_is(): whether the buffer, the first of those `ahead`, need not be copied. */
    method AsIs(x: nat, ghost ahead: seq<nat>, ghost out: seq<nat>) returns (yes: bool)
      requires Holds(S(out).(input := ahead)) && ahead != [] && ahead[0] == x < |bufs| && Sane(bufs[x])
      modifies `bufs
      ensures Holds(S(out).(input := ahead)) && Work(bufs, ahead) == Work(old(bufs), ahead) && |bufs| == |old(bufs)|
      ensures bufs == old(bufs)[x := old(bufs)[x].(inFile := bufs[x].inFile)] && Sane(bufs[x])
      ensures Alike(old(bufs)[x], bufs[x]) && Size(bufs[x]) == Size(old(bufs)[x])
      ensures Content(bufs[x]) == Content(old(bufs)[x])
      ensures yes <==> Passes(old(bufs)[x])
      ensures (yes <==> Passes(bufs[x])) && (yes ==> Takes(bufs[x]))
      ensures Special(bufs[x]) <==> Special(old(bufs)[x])
    {
      hide Lines, Places, Unsent, Work, Tagged, Content, Size, Passes, Takes, Alike, HeadWaits, Special;
      var b := bufs[x];
      assert b.inFile ==> b.file.Some?;
      Verdict(b, b);
      if Special(b) {
        return true;
      }
      if b.inFile && b.file.value.directio {
        return false;
      }
      if !sendfile {
        if !InMemory(b) {
          return false;
        }
        FromMemory(x, ahead, out);
        Verdict(b, bufs[x]);
      }
      if needInMemory && !InMemory(b) {
        return false;
      }
      if needInTemp && (b.memory || b.mmap) {
        return false;
      }
      return true;
    }

    /** ngx_output_chain_align_file_buf(): a part of a file that is read past the page cache is read up to the
        next multiple of the alignment first. */
    method AlignFileBuf(bsize: nat, ghost out: seq<nat>) returns (rc: Rc)
      requires Core(out) && buf.None? && input != [] && input[0] < |bufs| && bsize > 0
      modifies `bufs, `buf, `directio
      ensures Core(out) && rc in {Ok, Declined} && |bufs| >= |old(bufs)| && bufs[..|old(bufs)|] == old(bufs)
      ensures rc == Declined ==> bufs == old(bufs) && buf == old(buf)
      ensures rc == Ok ==> buf == Some(|old(bufs)|) && |bufs| == |old(bufs)| + 1 && Blank(bufs[|old(bufs)|])
      ensures var b := old(bufs)[input[0]];
              if b.file.Some? && b.file.value.directio then
                && directio
                && (rc == Declined <==> b.filePos % alignment == 0 && bsize >= size)
                && (rc == Ok ==> var n := |bufs[|old(bufs)|].area|;
                                 n <= bsize && (n == bsize || (n < alignment && (b.filePos + n) % alignment == 0)))
              else
                rc == Declined && directio == old(directio)
    {
      hide Lines, Places, Unsent, Work, Tagged;
      var b := bufs[input[0]];
      if b.file.None? || !b.file.value.directio {
        return Declined;
      }
      directio := true;
      var n := b.filePos % alignment;
      if n == 0 {
        if bsize >= size {
          return Declined;
        }
        n := bsize;
      } else {
        NextMultiple(b.filePos, alignment);
        n := alignment - n;
        if n > bsize {
          n := bsize;
        }
      }
      NewBuf(EMPTY_BUF.(area := seq(n, _ => 0), temporary := true), out);
      return Ok;
    }

    /** A new buffer to copy to. */
    method NewBuf(b: Buf, ghost out: seq<nat>)
      requires Good(S(out), tag) && sent + Unsent(S(out)) == submitted && buf.None? && Blank(b)
      modifies `bufs, `buf
      ensures Good(S(out), tag) && sent + Unsent(S(out)) == submitted
      ensures bufs == old(bufs) + [b] && buf == Some(|old(bufs)|)
      ensures Tagged(bufs, tag) == Tagged(old(bufs), tag) + if b.tag == tag then 1 else 0
      ensures busy != [] ==> busy[0] < |old(bufs)|
    {
      hide Lines, Places, Unsent, Tagged;
      ghost var s := S(out);
      bufs := bufs + [b];
      buf := Some(|bufs| - 1);
      Allocated(s, S(out), tag, b);
      TaggedMore(s.bufs, b, tag);
      BusyThere(s);
    }

    /** ngx_output_chain_get_buf(): a buffer of the configured size, or one that is just enough for the end of
        the input. */
    method GetBuf(bsize: nat, ghost out: seq<nat>)
      requires Core(out) && buf.None? && input != [] && input[0] < |bufs| && bsize > 0 && allotted < num
      modifies `bufs, `buf, `allotted
      ensures Core(out) && allotted == old(allotted) + 1 && |bufs| == |old(bufs)| + 1
              && bufs[..|old(bufs)|] == old(bufs)
      ensures buf == Some(|old(bufs)|) && Blank(bufs[|old(bufs)|]) && bufs[|old(bufs)|].tag == tag
      ensures var n := |bufs[|old(bufs)|].area|;
              var fits := bsize < size || (!directio && num == 1 && bsize < size + size / 4);
              if old(bufs)[input[0]].lastInChain && fits then n == bsize && !bufs[|old(bufs)|].recycled
              else n == size && bufs[|old(bufs)|].recycled
    {
      hide Lines, Places, Unsent, Work, Tagged;
      var n, recycled := size, true;
      if bufs[input[0]].lastInChain {
        if bsize < size {
          n, recycled := bsize, false;
        } else if !directio && num == 1 && bsize < size + size / 4 {
          n, recycled := bsize, false;
        }
      }
      NewBuf(EMPTY_BUF.(area := seq(n, _ => 0), temporary := true, tag := tag, recycled := recycled), out);
      allotted := allotted + 1;
    }

    /** The buffer `dst` gets the first `n` bytes of `src`, and what ends with them. */
    method Fill(src: Buf, dst0: Buf, n: nat) returns (dst: Buf)
      requires Sane(src) && Blank(dst0) && n <= Size(src) && n <= |dst0.area|
      ensures Sane(dst) && Content(dst) == Content(src)[..n]
      ensures Writable(dst) && dst.tag == dst0.tag && |dst.area| == |dst0.area|
      ensures (dst.inFile <==> src.inFile && sendfile && !directio) && (dst.inFile ==> dst.file == src.file)
      ensures if n == Size(src) then
                dst.flush == src.flush && dst.lastBuf == src.lastBuf && dst.lastInChain == src.lastInChain
              else
                dst.flush == dst0.flush && dst.lastBuf == dst0.lastBuf && dst.lastInChain == dst0.lastInChain
    {
      hide Content, Sane, Special, Advanced, Filled, Marked;
      dst := Filled(dst0, src, n, sendfile && !directio);
      if Size(src) == n {
        dst := Marked(dst, src);
      }
    }

    /** ngx_output_chain_copy_buf(): as much of the first buffer of the input as the buffer being filled takes. */
    method CopyBuf() returns (rc: Rc, ghost read: Reading)
      requires input != [] && input[0] < |bufs| && buf.Some? && buf.value < |bufs| && buf.value != input[0]
      requires Sane(bufs[input[0]]) && Blank(bufs[buf.value]) && Size(bufs[input[0]]) > 0
      modifies `bufs
      ensures rc == if InMemory(old(bufs)[input[0]]) || read == Full then Ok else if read == Later then Again else Error
      ensures rc != Ok ==> bufs == old(bufs)
      ensures rc == Ok ==>
                var x, d := input[0], buf.value;
                var src, dst := old(bufs)[x], old(bufs)[d];
                var n := if Size(src) <= |dst.area| then Size(src) else |dst.area|;
                && |bufs| == |old(bufs)| && bufs == old(bufs)[x := Advanced(src, n)][d := bufs[d]]
                && Sane(bufs[d]) && Content(bufs[d]) == Content(src)[..n]
                && Writable(bufs[d]) && bufs[d].tag == dst.tag && |bufs[d].area| == |dst.area|
                && (bufs[d].inFile <==> src.inFile && sendfile && !directio)
                && (bufs[d].inFile ==> bufs[d].file == src.file)
                && (if n == Size(src) then
                      bufs[d].flush == src.flush && bufs[d].lastBuf == src.lastBuf
                          && bufs[d].lastInChain == src.lastInChain
                    else
                      bufs[d].flush == dst.flush && bufs[d].lastBuf == dst.lastBuf
                          && bufs[d].lastInChain == dst.lastInChain)
    {
      hide Content, Sane, Advanced, Special;
      read := Full;
      var x, d := input[0], buf.value;
      var src, dst := bufs[x], bufs[d];
      var n := if Size(src) <= |dst.area| then Size(src) else |dst.area|;
      if !InMemory(src) {
        var reading: Reading := *;
        read := reading;
        if reading == Later {
          return Again, read;
        }
        if reading != Full {
          return Error, read;
        }
      }
      dst := Fill(src, dst, n);
      bufs := bufs[x := Advanced(src, n)][d := dst];
      return Ok, read;
    }

    /** A buffer to copy to: one for a part of a file, a free one, or a new one.  There is none if the
        configured number is in use, or if the filter can be given something first. */
    method Provide(bsize: nat, out: seq<nat>) returns (found: bool)
      requires Core(out) && input != [] && input[0] < |bufs| && Sane(bufs[input[0]])
               && Size(bufs[input[0]]) == bsize > 0
      requires Filling() && !Passes(bufs[input[0]])
      modifies `bufs, `buf, `free, `allotted, `directio
      ensures Filling() && (forall x <- free :: x in old(free))
      ensures buf.Some? && buf != old(buf) ==> buf.value in old(free) || buf.value >= |old(bufs)|
      ensures Core(out) && Work(bufs, input) == Work(old(bufs), input) && |bufs| >= |old(bufs)|
      ensures bufs[..|old(bufs)|] == old(bufs)
      ensures found <==> buf.Some?
      ensures !found ==> free == [] && (out != [] || allotted == num)
    {
      hide Lines, Places, Unsent, Work, Tagged, Sane, Size, Passes;
      ghost var s := S(out);
      WorkSame(bufs, bufs, input) by {
        InputThere(s, tag);
      }
      if buf.Some? {
        return true;
      }
      var rc := AlignFileBuf(bsize, out);
      if rc == Ok {
        WorkMore(s, bufs, tag);
        return true;
      }
      if free != [] {
        ghost var s1 := S(out);
        buf := Some(free[0]);
        free := free[1..];
        Reused(s1, S(out), tag);
        return true;
      }
      if out != [] || allotted == num {
        return false;
      }
      GetBuf(bsize, out);
      WorkMore(s, bufs, tag);
      return true;
    }

    /** As much of the input as possible is copied to the buffer being filled, which goes to the chain. */
    method CopyOn(out0: seq<nat>) returns (out: seq<nat>, rc: Rc)
      requires Core(out0) && input != [] && input[0] < |bufs| && Sane(bufs[input[0]]) && Size(bufs[input[0]]) > 0
      requires buf.Some? && Filling()
      modifies `bufs, `buf, `input
      ensures Filling()
      ensures rc == Ok ==>
                && buf.None? && out == out0 + [old(buf).value] && old(buf).value < |bufs| && Takes(bufs[old(buf).value])
                && OnlyCopied(old(bufs), bufs, old(input)[0], old(buf).value)
                && old(input)[0] !in out0 && old(buf).value !in out0 && old(buf).value !in old(input)
                && (input == old(input)[1..] || (input == old(input) && Size(bufs[input[0]]) > 0))
      ensures Core(out) && rc in {Ok, Again, Error}
      ensures if rc == Ok then |out| == |out0| + 1 && Work(bufs, input) < Work(old(bufs), old(input))
              else out == out0 && bufs == old(bufs) && buf == old(buf) && input == old(input)
    {
      hide Lines, Places, Unsent, Work, Tagged, Sane, Content, Spare, Size, Advanced, Blank, Passes, Takes, DirectFile,
          OnlyCopied, NoDup;
      out := out0;
      ghost var s := S(out);
      SpareBuf(s, tag);
      SpareApart(s, buf.value);
      ghost var read;
      rc, read := CopyBuf();
      if rc != Ok {
        return;
      }
      ghost var n := CopiedLength(s.bufs[input[0]], s.bufs[buf.value]);
      CopyTaken(s.bufs[input[0]], bufs[buf.value]);
      CopyOnly(s.bufs, bufs, input[0], buf.value, n);
      SpareOutside(s, buf.value);
      ghost var s1 := s.(bufs := bufs, out := out + [buf.value], buf := None);
      Copied(s, s1, tag, n, bufs[buf.value]);
      CopiedWork(s, bufs, n, bufs[buf.value]);
      TaggedSame(s.bufs, bufs, tag) by {
        AdvancedTag(s.bufs[input[0]], n);
      }
      if Size(bufs[input[0]]) == 0 {
        WorkTail(bufs, input);
        input := input[1..];
        Skipped(s1, s1.(input := input), tag);
      } else {
        SizeSane(bufs[input[0]]);
      }
      out := out + [buf.value];
      buf := None;
    }

    lemma CopyTaken(src: Buf, dst: Buf)
      requires Writable(dst) && (dst.inFile <==> src.inFile && sendfile && !directio)
      requires (dst.inFile ==> dst.file == src.file) && (DirectFile(src) ==> directio)
      ensures Takes(dst)
    {
    }

    /** The filter: it takes the chain, sends any part of what it has, and answers anything. */
    method Filter(out: seq<nat>) returns (rc: Rc, ghost n: nat)
      requires Good(S(out), tag) && AllTaken(bufs, out)
      modifies `bufs, `pending, `sent, `calls
      ensures calls == old(calls) + 1
      ensures n <= |Bytes(old(bufs), old(pending) + out)|
              && sent == old(sent) + Bytes(old(bufs), old(pending) + out)[..n]
      ensures OnlySent(old(bufs), bufs, old(pending) + out) && Chain(bufs, old(pending) + out)
      ensures |pending| <= |old(pending) + out| && pending == (old(pending) + out)[|old(pending) + out| - |pending|..]
      ensures Chain(bufs, pending) && Loaded(bufs, pending)
      ensures Bytes(bufs, pending) == Bytes(old(bufs), old(pending) + out)[n..]
    {
      hide Sane, Content;
      calls := calls + 1;
      pending := pending + out;
      assert NoDup(pending) by {
        PrefixDistinct(pending, input);
      }
      var m: nat :| m <= |Bytes(bufs, pending)|;
      n := m;
      sent := sent + Bytes(bufs, pending)[..m];
      bufs, pending := UpdateSent(bufs, pending, m);
      rc := *;
    }

    /** ngx_chain_update_chains(): what was sent from the busy chain is given back. */
    method UpdateChains(out: seq<nat>)
      requires Good(S([]).(busy := busy + out), tag)
      modifies `bufs, `busy, `free
      ensures Good(S([]), tag) && Unsent(S([])) == old(Unsent(S([]).(busy := busy + out)))
      ensures busy != [] ==> busy[0] < |bufs| && Size(bufs[busy[0]]) != 0
      ensures Tagged(bufs, tag) == Tagged(old(bufs), tag) && Work(bufs, input) == Work(old(bufs), input)
      ensures SameAt(old(bufs), bufs, input)
    {
      hide Lines, Places, Unsent, Tagged, Work, Sane;
      busy := busy + out;
      SameAtOnce(S([]), tag);
      while busy != []
        invariant SameAt(old(bufs), bufs, input)
        invariant Good(S([]), tag) && Unsent(S([])) == old(Unsent(S([]).(busy := busy + out)))
        invariant Tagged(bufs, tag) == Tagged(old(bufs), tag) && Work(bufs, input) == Work(old(bufs), input)
        decreases |busy|
      {
        ghost var s := S([]);
        BusyThere(s);
        var x := busy[0];
        if Size(bufs[x]) != 0 {
          break;
        }
        if bufs[x].tag != tag {
          busy := busy[1..];
          Dropped(s, S([]), tag);
          continue;
        }
        bufs := bufs[x := bufs[x].(pos := 0, last := 0)];
        busy := busy[1..];
        free := [x] + free;
        Released(s, S([]), tag);
        TaggedSame(s.bufs, bufs, tag);
        WorkSame(s.bufs, bufs, input) by {
          InputThere(s, tag);
        }
      }
      if busy != [] {
        BusyThere(S([]));
      }
    }

    /** As much of the first buffer of the input as possible is copied; there is no more to do if there is nothing to
        copy to, or if its bytes cannot be read now. */
    method CopyNext(bsize: nat, out0: seq<nat>, ghost was: seq<Buf>, ghost all: seq<nat>)
      returns (out: seq<nat>, rc: Rc, more: bool)
      requires Core(out0) && Course(was, all, S(out0), directio) && input != [] && input[0] < |bufs|
      requires Sane(bufs[input[0]]) && Size(bufs[input[0]]) == bsize > 0 && !Passes(bufs[input[0]])
      modifies `bufs, `input, `buf, `free, `allotted, `directio
      ensures Core(out) && Course(was, all, S(out), directio)
      ensures Work(bufs, input) + |out| <= Work(old(bufs), old(input)) + |out0|
      ensures more <==> out != out0
      ensures !more && rc == Ok ==> input == old(input) && input[0] < |bufs| && !Passes(bufs[input[0]])
                                    && (buf.Some? || free == [])
      ensures if more then rc == Ok && Work(bufs, input) < Work(old(bufs), old(input))
              else rc in {Ok, Again, Error} && (rc == Again ==> out == [])
                   && (rc == Ok ==> out != [] || (buf.None? && free == [] && allotted == num))
    {
      hide Lines, Places, Unsent, Work, Tagged, Sane, Content, Size, Special, Takes, Passes, Routed, AllTaken,
          FillingFor, Course, NoDup, Alike, HeadWaits, OnlyCopied;
      out, rc, more := out0, Ok, false;
      ghost var s2, direct := S(out), directio;
      CourseEnds(was, all, s2, direct);
      var found := Provide(bsize, out);
      CourseProvided(was, all, s2, S(out), direct, directio);
      if !found {
        return;
      }
      ghost var s3 := S(out);
      out, rc := CopyOn(out);
      if rc == Error {
        return;
      }
      if rc == Again {
        if out != [] {
          rc := Ok;
        }
        return;
      }
      CourseCopied(was, all, s3, S(out), tag, directio);
      more := true;
    }

    /** The chain for the filter is put together: buffers of the input are passed on or copied, as long as there
        are buffers to copy to. */
    method Gather() returns (out: seq<nat>, rc: Rc)
      requires Valid()
      modifies `bufs, `input, `buf, `free, `allotted, `directio
      ensures Core(out) && Work(bufs, input) + |out| <= Work(old(bufs), old(input))
      ensures rc in {Ok, Again, Error} && (rc == Again ==> out == [])
      ensures rc == Ok ==> input == [] || out != [] || (buf.None? && free == [] && allotted == num)
      ensures AllTaken(bufs, out) && Routed(old(bufs), old(input), input, out) && Filling()
      ensures rc == Ok && input != [] ==>
                input[0] < |bufs| && !Passes(bufs[input[0]]) && (buf.Some? || free == [])
    {
      hide Lines, Places, Unsent, Work, Tagged, Sane, Content, Size, Special, Takes, Passes, Routed, AllTaken,
          FillingFor, Course, NoDup, Alike;
      out := [];
      rc := Ok;
      ghost var was, all := bufs, input;
      GatherStart(S([]), directio);
      while input != []
        invariant Core(out) && Work(bufs, input) + |out| <= Work(old(bufs), old(input)) && rc == Ok
        invariant Course(was, all, S(out), directio)
        decreases Work(bufs, input)
      {
        ghost var s := S(out);
        InputHead(s);
        WorkTail(bufs, input);
        var x := input[0];
        var bsize := Size(bufs[x]);
        if bsize == 0 && !Special(bufs[x]) {
          input := input[1..];
          Skipped(s, S(out), tag);
          CourseSkipped(was, all, s, directio);
          continue;
        }
        SizeSane(bufs[x]);
        var asIs := AsIs(x, input, out);
        CourseRetold(was, all, s, S(out), directio);
        if asIs {
          ghost var s1 := S(out);
          WorkTail(bufs, input);
          input := input[1..];
          out := out + [x];
          PassedOn(s1, S(out), tag);
          CoursePassed(was, all, s1, directio);
          continue;
        }
        SpecialPasses(bufs[x]);
        var more;
        out, rc, more := CopyNext(bsize, out, was, all);
        if !more {
          break;
        }
      }
      CourseEnds(was, all, S(out), directio);
    }

    /** What the filter has and what is left in the input are the bytes not sent yet. */
    ghost predicate Waiting()
      reads this
    {
      && Chain(bufs, pending + input) && sent + Bytes(bufs, pending + input) == submitted
      && allotted <= num
    }

    /** The filter is given the chain. */
    method Deliver(out: seq<nat>) returns (rc: Rc)
      requires Good(S(out), tag) && AllTaken(bufs, out) && sent + Unsent(S(out)) == submitted
      modifies `bufs, `pending, `sent, `calls
      ensures calls == old(calls) + 1
      ensures Good(S([]).(busy := busy + out), tag) && sent + Unsent(S([]).(busy := busy + out)) == submitted
      ensures Tagged(bufs, tag) == Tagged(old(bufs), tag) && Work(bufs, input) == Work(old(bufs), input)
      ensures |bufs| == |old(bufs)| && forall x :: 0 <= x < |bufs| ==> bufs[x].tag == old(bufs)[x].tag
      ensures SameAt(old(bufs), bufs, input)
      ensures old(sent) <= sent
    {
      hide Lines, Places, Unsent, Work, Tagged, Sane, Content, AllTaken, SameAt, NoDup, Loaded;
      ghost var s := S(out);
      ghost var n;
      rc, n := Filter(out);
      Sent(s, S([]).(busy := busy + out), tag, n);
      TaggedSame(s.bufs, bufs, tag);
      DeliveredWork(s, bufs, tag);
    }

    /** The filter is given a single buffer that need not be copied; it takes no notice of an empty one. */
    method Direct(c: seq<nat>) returns (rc: Rc)
      requires input == [] && busy == [] && |c| == 1 && c[0] < |bufs| && Sane(bufs[c[0]])
      requires Holds(S([]).(input := c)) && Takes(bufs[c[0]]) && buf.None?
      modifies `bufs, `pending, `sent, `calls
      ensures Valid() && old(sent) <= sent && calls == old(calls) + 1
    {
      hide Lines, Places, Unsent, Work, Tagged, Sane, Content, Size, Special;
      ghost var s := S([]).(input := c);
      SizeSane(bufs[c[0]]);
      InputTag(s, tag);
      assert c[1..] == [] && [] + c == c && busy + c == c && [] + [c[0]] == c;
      if Size(bufs[c[0]]) == 0 && !Special(bufs[c[0]]) {
        Skipped(s, S([]), tag);
        rc := Deliver([]);
        assert busy + [] == busy;
      } else {
        PassedOn(s, S(c), tag);
        rc := Deliver(c);
        Dropped(S([]).(busy := c), S([]), tag);
      }
    }

    /** The short path of ngx_output_chain(), for nothing or a single buffer when nothing waits. */
    method ShortPath(c: seq<nat>) returns (short: bool, rc: Rc)
      requires Holds(S([]).(input := input + c)) && (c == [] ==> Valid()) && Filling()
      modifies `bufs, `pending, `sent, `calls
      ensures calls == old(calls) + if short then 1 else 0
      ensures if short then Valid() && input == [] else Holds(S([]).(input := input + c)) && Filling()
      ensures short <==> input == [] && busy == [] && !aio
                         && (c == [] || (|c| == 1 && c[0] < |old(bufs)| && Passes(old(bufs)[c[0]])))
      ensures old(sent) <= sent
    {
      hide Lines, Places, Unsent, Work, Tagged, Sane, Content, Size, Special;
      short, rc := false, Ok;
      if input == [] && busy == [] && !aio {
        assert input + c == c;
        if c == [] {
          short := true;
          rc := Deliver([]);
          assert busy + [] == busy;
        } else if |c| == 1 {
          InputHead(S([]).(input := c));
          short := AsIs(c[0], c, []);
          if short {
            rc := Direct(c);
          }
        }
      }
    }

    /** The loop of ngx_output_chain(). */
    method Run() returns (rc: Rc, ghost later: bool)
      requires Valid()
      modifies `bufs, `input, `buf, `free, `busy, `pending, `allotted, `directio, `sent, `calls
      ensures calls >= old(calls) && (rc !in {Error, Again} ==> calls > old(calls))
      ensures rc !in {Error, Done} ==> Valid()
      ensures rc != Error ==> Waiting()
      ensures Chain(bufs, pending) && sent + Bytes(bufs, pending) <= submitted && old(sent) <= sent && allotted <= num
      ensures rc !in {Error, Done, Again} ==> input == []
      ensures rc == Again && input != [] ==> aio || later || (buf.None? && free == [] && allotted == num)
    {
      hide Lines, Places, Unsent, Work, Tagged, Sane, Content, Size, Special, AllTaken, Routed, FillingFor,
          SameAt, NoDup, Chain, Bytes;
      later := false;
      var last: Option<Rc> := None;
      while true
        invariant calls >= old(calls) && (last.Some? ==> calls > old(calls))
        invariant Valid() && old(sent) <= sent && !later && (last.Some? ==> last.value !in {Error, Done})
        decreases Work(bufs, input), if last.None? then 1 else 0
      {
        if aio {
          Waits(S([]));
          return Again, later;
        }
        var out;
        out, rc := Gather();
        if rc == Error {
          PendingFirst(S(out));
          return;
        }
        if rc == Again {
          later := true;
          Waits(S([]));
          return;
        }
        if out == [] && last.Some? {
          Waits(S([]));
          if input != [] {
            return Again, later;
          }
          return last.value, later;
        }
        ghost var s, direct := S([]), directio;
        rc := Deliver(out);
        ghost var s1 := S([]);
        FillingSame(s, s1, direct);
        last := Some(rc);
        if rc == Error || rc == Done {
          Waits(S([]).(busy := busy + out));
          return;
        }
        UpdateChains(out);
        FillingSame(s1, S([]), direct);
      }
    }

    /** ngx_output_chain(): the buffers `c` are submitted.  On an answer other than an error every byte submitted
        so far was sent or waits in the filter or in the input.  After `Done` the filter wants nothing more, and
        the buffers it still has are not listed as busy; after an error the chain put together is lost. */
    method Output(c: seq<nat>) returns (rc: Rc, ghost later: bool)
      requires Valid() && Good(S([]).(input := input + c), tag) && Chain(bufs, c)
      modifies this
      ensures submitted == old(submitted) + Bytes(old(bufs), c)
      ensures rc !in {Error, Again} ==> calls > old(calls)
      ensures old(input == [] && busy == [] && !aio) && c == [] ==> calls == old(calls) + 1
      ensures rc !in {Error, Done} ==> Valid()
      ensures rc != Error ==> Waiting()
      ensures Chain(bufs, pending) && sent + Bytes(bufs, pending) <= submitted && old(sent) <= sent && allotted <= num
      ensures rc !in {Error, Done, Again} ==> input == []
      ensures rc == Again && input != [] ==> aio || later || (buf.None? && free == [] && allotted == num)
    {
      hide Lines, Places, Unsent, Work, Tagged, Sane, Content, Size, Special, HeadWaits, NoDup, FillingFor, Takes,
          Passes, Chain, Bytes;
      later := false;
      ghost var s := S([]);
      Submitted(s, s.(input := input + c), tag, c);
      MoreInput(s, c, directio);
      NoBytes(bufs);
      submitted := submitted + Bytes(bufs, c);
      var short;
      short, rc := ShortPath(c);
      if short {
        Waits(S([]));
        return;
      }
      MoreInput(S([]), c, directio);
      input := input + c;
      rc, later := Run();
    }
  }

  /** A buffer was copied from `x` to `y`, and no other changed. */
  ghost predicate OnlyCopied(bufs: seq<Buf>, bufs': seq<Buf>, x: nat, y: nat) {
    && |bufs'| == |bufs| && x < |bufs|
    && (forall z :: 0 <= z < |bufs| && z != x && z != y ==> bufs'[z] == bufs[z])
    && bufs'[x] == bufs[x].(pos := bufs'[x].pos, filePos := bufs'[x].filePos)
  }

  lemma CopyOnly(bufs: seq<Buf>, bufs': seq<Buf>, x: nat, y: nat, n: nat)
    requires x < |bufs| && y < |bufs| == |bufs'| && x != y && Sane(bufs[x]) && n <= Size(bufs[x])
    requires bufs' == bufs[x := Advanced(bufs[x], n)][y := bufs'[y]]
    ensures OnlyCopied(bufs, bufs', x, y)
  {
  }

  lemma CopiedElsewhere(bufs: seq<Buf>, bufs': seq<Buf>, x: nat, y: nat, c: seq<nat>)
    requires OnlyCopied(bufs, bufs', x, y) && x !in c && y !in c
    ensures |bufs'| == |bufs| && forall i :: 0 <= i < |c| && c[i] < |bufs| ==> bufs'[c[i]] == bufs[c[i]]
  {
  }

  /** These buffers are as they were. */
  ghost predicate SameAt(bufs: seq<Buf>, bufs': seq<Buf>, c: seq<nat>) {
    && |bufs'| == |bufs|
    && forall i :: 0 <= i < |c| ==> c[i] < |bufs| && bufs'[c[i]] == bufs[c[i]]
  }

  lemma SameAtOnce(s: State, tag: nat)
    requires Places(s, tag)
    ensures SameAt(s.bufs, s.bufs, s.input)
    ensures forall i :: 0 <= i < |s.input| ==> s.bufs[s.input[i]].tag != tag
  {
    hide Blank, Spare;
  }

  lemma InputDistinct(s: State)
    requires Lines(s)
    ensures NoDup(s.input)
  {
    hide Sane, Loaded;
    var n := |s.pending + s.out|;
    forall i, j | 0 <= i < j < |s.input| ensures s.input[i] != s.input[j] {
      assert Line(s)[n + i] == s.input[i] && Line(s)[n + j] == s.input[j];
    }
  }

  /** The first buffer of the input is not in the chain. */
  lemma HeadApart(s: State)
    requires Lines(s) && s.input != []
    ensures NoDup(s.input) && s.input[0] !in s.out
  {
    hide Sane, Loaded, NoDup;
    InputDistinct(s);
    InputOnly(s, s.input[0]);
  }

  lemma SpareOutside(s: State, x: nat)
    requires Lines(s) && s.input != [] && Spare(s, x)
    ensures x !in s.out && x !in s.input && s.input[0] !in s.out
  {
    hide Sane, Loaded, NoDup, Blank;
    HeadApart(s);
  }

  lemma NoBytes(bufs: seq<Buf>)
    ensures Bytes(bufs, []) == []
  {
  }

  lemma DeliveredWork(s: State, bufs': seq<Buf>, tag: nat)
    requires Good(s, tag) && OnlySent(s.bufs, bufs', s.pending + s.out)
    ensures Work(bufs', s.input) == Work(s.bufs, s.input) && SameAt(s.bufs, bufs', s.input)
  {
    hide Sane, Blank, Loaded;
    forall i | 0 <= i < |s.input| ensures s.input[i] < |s.bufs| && bufs'[s.input[i]] == s.bufs[s.input[i]] {
      assert s.input[i] in s.input;
      InputOnly(s, s.input[i]);
    }
    WorkSame(s.bufs, bufs', s.input);
  }

  lemma InputTag(s: State, tag: nat)
    requires Places(s, tag) && s.input != []
    ensures s.input[0] < |s.bufs| && s.bufs[s.input[0]].tag != tag
  {
  }

  /** What waits, from the filter on. */
  lemma Waits(s: State)
    requires Lines(s) && s.out == []
    ensures Chain(s.bufs, s.pending + s.input) && Unsent(s) == Bytes(s.bufs, s.pending + s.input)
    ensures Chain(s.bufs, s.pending) && Bytes(s.bufs, s.pending) <= Unsent(s)
  {
    hide Sane, Content, NoDup, Loaded;
    assert Line(s) == s.pending + s.input;
    PendingFirst(s);
  }

  lemma SizeSane(b: Buf)
    requires Sane(b)
    ensures Size(b) >= 0
  {
  }

  lemma WorkMore(s: State, bufs': seq<Buf>, tag: nat)
    requires Places(s, tag) && |bufs'| >= |s.bufs| && bufs'[..|s.bufs|] == s.bufs
    ensures Work(bufs', s.input) == Work(s.bufs, s.input)
  {
    hide Blank, Spare, Size;
    forall i | 0 <= i < |s.input| ensures bufs'[s.input[i]] == s.bufs[s.input[i]] {
      assert bufs'[..|s.bufs|][s.input[i]] == s.bufs[s.input[i]];
    }
    WorkSame(s.bufs, bufs', s.input);
  }

  lemma WorkTail(bufs: seq<Buf>, c: seq<nat>)
    requires c != []
    ensures Work(bufs, c[1..]) < Work(bufs, c)
  {
  }

  lemma SpareBuf(s: State, tag: nat)
    requires Places(s, tag) && s.buf.Some?
    ensures Spare(s, s.buf.value) && s.buf.value < |s.bufs| && Blank(s.bufs[s.buf.value])
  {
  }

  lemma CopiedLength(src: Buf, dst: Buf) returns (n: nat)
    requires Sane(src) && Size(src) > 0 && Blank(dst)
    ensures n == if Size(src) <= |dst.area| then Size(src) else |dst.area|
    ensures 0 < n <= Size(src)
  {
    n := if Size(src) <= |dst.area| then Size(src) else |dst.area|;
  }

  lemma AdvancedTag(b: Buf, n: nat)
    requires Sane(b) && n <= Size(b)
    ensures Advanced(b, n).tag == b.tag
  {
  }

  lemma BusyThere(s: State)
    requires Lines(s)
    ensures s.busy != [] ==> s.busy[0] < |s.bufs|
  {
    assert s.busy != [] ==> Due(s)[0] == s.busy[0];
  }

  lemma PrefixDistinct(c: seq<nat>, d: seq<nat>)
    requires NoDup(c + d)
    ensures NoDup(c)
  {
    forall i, j | 0 <= i < j < |c| ensures c[i] != c[j] {
      assert (c + d)[i] == c[i] && (c + d)[j] == c[j];
    }
  }

  lemma NextMultiple(x: nat, d: nat)
    requires d > 0
    ensures (x + (d - x % d)) % d == 0
  {
    assert x + (d - x % d) == d * (x / d + 1);
    Arith.DivMul(x / d + 1, d);
  }

  lemma InputThere(s: State, tag: nat)
    requires Places(s, tag)
    ensures forall i :: 0 <= i < |s.input| ==> s.input[i] < |s.bufs|
  {
  }
}