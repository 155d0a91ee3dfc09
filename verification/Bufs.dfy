/** Buffers and chains of buffers of `ngx_buf.h` and `ngx_buf.c`.  A chain is the sequence of the places of
    its buffers in a store. */
module Bufs {
  import opened Words
  import opened Sequences

  datatype File = File(data: seq<byte>, directio: bool)

  /** An ngx_buf_t.  `area` is the memory from start to end; pos and last are offsets in it. */
  datatype Buf = Buf(area: seq<byte>, pos: nat, last: nat, file: Option<File>, filePos: nat, fileLast: nat,
                     tag: nat, temporary: bool, memory: bool, mmap: bool, recycled: bool, inFile: bool,
                     flush: bool, sync: bool, lastBuf: bool, lastInChain: bool)

  const EMPTY_BUF := Buf([], 0, 0, None, 0, 0, 0, false, false, false, false, false, false, false, false, false)

  predicate InMemory(b: Buf) { b.temporary || b.memory || b.mmap }

  predicate Special(b: Buf) { (b.flush || b.lastBuf || b.sync) && !InMemory(b) && !b.inFile }

  /** ngx_buf_size(). */
  function Size(b: Buf): int { if InMemory(b) then b.last - b.pos else b.fileLast - b.filePos }

  /** A buffer lies in its memory; one that is not in memory is a part of a file, or empty. */
  predicate Sane(b: Buf) {
    && b.pos <= b.last <= |b.area|
    && (!InMemory(b) ==> b.filePos <= b.fileLast && (b.inFile || b.filePos == b.fileLast))
    && (b.inFile && !InMemory(b) ==> b.file.Some? && b.fileLast <= |b.file.value.data|)
    && (b.inFile && InMemory(b) ==> b.file.Some? && b.fileLast - b.filePos == b.last - b.pos)
  }

  /** The bytes a buffer stands for. */
  function Content(b: Buf): (r: seq<byte>)
    requires Sane(b)
    ensures |r| == Size(b)
  {
    if InMemory(b) then b.area[b.pos..b.last]
    else if b.inFile then b.file.value.data[b.filePos..b.fileLast]
    else []
  }

  ghost predicate Chain(bufs: seq<Buf>, c: seq<nat>) {
    forall i :: 0 <= i < |c| ==> c[i] < |bufs| && Sane(bufs[c[i]])
  }

  /** The bytes of a chain. */
  function Bytes(bufs: seq<Buf>, c: seq<nat>): seq<byte>
    requires Chain(bufs, c)
  {
    if c == [] then [] else Content(bufs[c[0]]) + Bytes(bufs, c[1..])
  }

  lemma {:induction false} BytesJoin(bufs: seq<Buf>, c: seq<nat>, d: seq<nat>)
    requires Chain(bufs, c) && Chain(bufs, d)
    ensures Chain(bufs, c + d) && Bytes(bufs, c + d) == Bytes(bufs, c) + Bytes(bufs, d)
  {
    hide Content, Sane;
    if c == [] {
      assert c + d == d;
    } else {
      BytesJoin(bufs, c[1..], d);
      assert (c + d)[1..] == c[1..] + d;
    }
  }

  /** The bytes of a chain depend on the contents of its buffers only. */
  lemma {:induction false} BytesSame(bufs: seq<Buf>, bufs': seq<Buf>, c: seq<nat>)
    requires Chain(bufs, c) && Chain(bufs', c)
    requires forall i :: 0 <= i < |c| ==> Content(bufs'[c[i]]) == Content(bufs[c[i]])
    ensures Bytes(bufs', c) == Bytes(bufs, c)
  {
    if c != [] {
      BytesSame(bufs, bufs', c[1..]);
    }
  }

  /** What a buffer leaves after its first `n` bytes went out. */
  function Advanced(b: Buf, n: nat): (r: Buf)
    requires Sane(b) && n <= Size(b)
    ensures Sane(r) && Content(r) == Content(b)[n..]
  {
    if InMemory(b) then
      if b.inFile then b.(pos := b.pos + n, filePos := b.filePos + n) else b.(pos := b.pos + n)
    else if b.inFile then
      b.(filePos := b.filePos + n)
    else
      b
  }

  /** A chain without buffers that are empty for no reason. */
  ghost predicate Loaded(bufs: seq<Buf>, c: seq<nat>)
    requires Chain(bufs, c)
  {
    forall i :: 0 <= i < |c| ==> Special(bufs[c[i]]) || Size(bufs[c[i]]) > 0
  }

  /** Nothing but the positions of buffers of the chain changed. */
  ghost predicate OnlySent(bufs: seq<Buf>, bufs': seq<Buf>, c: seq<nat>) {
    && |bufs'| == |bufs|
    && forall i :: 0 <= i < |bufs| ==>
         && bufs'[i] == bufs[i].(pos := bufs'[i].pos, filePos := bufs'[i].filePos)
         && (i !in c ==> bufs'[i] == bufs[i])
  }

  /** Before the place `k` of the chain everything went out, and `left` bytes of the rest are still to go. */
  ghost predicate Progress(bufs: seq<Buf>, bufs': seq<Buf>, c: seq<nat>, k: nat, sent: nat, left: nat)
    requires Chain(bufs, c) && k <= |c|
  {
    && OnlySent(bufs, bufs', c[..k]) && Chain(bufs', c)
    && left <= |Bytes(bufs, c[k..])| && left <= sent <= |Bytes(bufs, c)|
    && Bytes(bufs, c[k..])[left..] == Bytes(bufs, c)[sent..]
    && forall i :: 0 <= i < k ==> Special(bufs'[c[i]]) || Size(bufs'[c[i]]) == 0
  }

  lemma ProgressStep(bufs: seq<Buf>, bufs1: seq<Buf>, bufs2: seq<Buf>, c: seq<nat>, k: nat, sent: nat, left: nat)
    requires Chain(bufs, c) && NoDup(c) && k < |c| && Progress(bufs, bufs1, c, k, sent, left)
    requires bufs1[c[k]] == bufs[c[k]]
    requires if Special(bufs[c[k]]) then bufs2 == bufs1
             else left >= Size(bufs[c[k]]) && bufs2 == bufs1[c[k] := Advanced(bufs[c[k]], Size(bufs[c[k]]))]
    ensures Progress(bufs, bufs2, c, k + 1, sent, if Special(bufs[c[k]]) then left else left - Size(bufs[c[k]]))
  {
    hide Content, Sane, Advanced, Special, Size, Bytes;
    var size := if Special(bufs[c[k]]) then 0 else Size(bufs[c[k]]);
    if Special(bufs[c[k]]) {
      SpecialEmpty(bufs[c[k]]);
    } else {
      AdvancedSize(bufs[c[k]], size);
    }
    StepBytes(bufs, c, k, left, size);
    StepOnly(bufs, bufs1, bufs2, c, k);
  }

  lemma StepBytes(bufs: seq<Buf>, c: seq<nat>, k: nat, left: nat, size: nat)
    requires Chain(bufs, c) && k < |c| && size == |Content(bufs[c[k]])| && left <= |Bytes(bufs, c[k..])| && size <= left
    ensures left - size <= |Bytes(bufs, c[k + 1..])|
    ensures Bytes(bufs, c[k..])[left..] == Bytes(bufs, c[k + 1..])[left - size..]
  {
    hide Content, Sane;
    var rest := c[k..];
    assert rest[0] == c[k] && rest[1..] == c[k + 1..];
    var head, tail := Content(bufs[c[k]]), Bytes(bufs, c[k + 1..]);
    assert Bytes(bufs, rest) == head + tail;
  }

  lemma StepOnly(bufs: seq<Buf>, bufs1: seq<Buf>, bufs2: seq<Buf>, c: seq<nat>, k: nat)
    requires Chain(bufs, c) && k < |c| && OnlySent(bufs, bufs1, c[..k]) && bufs1[c[k]] == bufs[c[k]]
    requires bufs2 == bufs1 || exists n: nat :: n <= Size(bufs[c[k]]) && bufs2 == bufs1[c[k] := Advanced(bufs[c[k]], n)]
    ensures OnlySent(bufs, bufs2, c[..k + 1])
  {
    hide Content, Sane, Special, Size;
    assert c[..k + 1] == c[..k] + [c[k]];
  }

  lemma ProgressRest(bufs: seq<Buf>, bufs': seq<Buf>, c: seq<nat>, k: nat, i: nat)
    requires NoDup(c) && k <= i < |c| && Chain(bufs, c) && OnlySent(bufs, bufs', c[..k])
    ensures bufs'[c[i]] == bufs[c[i]]
  {
    assert c[i] !in c[..k];
  }

  /** ngx_chain_update_sent(): `sent` bytes of the chain went out; the rest of the chain is returned. */
  method UpdateSent(bufs: seq<Buf>, c: seq<nat>, sent: nat) returns (bufs': seq<Buf>, rest: seq<nat>)
    requires Chain(bufs, c) && NoDup(c) && Loaded(bufs, c) && sent <= |Bytes(bufs, c)|
    ensures OnlySent(bufs, bufs', c) && Chain(bufs', c)
    ensures |rest| <= |c| && rest == c[|c| - |rest|..] && Chain(bufs', rest) && Loaded(bufs', rest)
    ensures Bytes(bufs', rest) == Bytes(bufs, c)[sent..]
    ensures forall i :: 0 <= i < |c| - |rest| ==> Special(bufs'[c[i]]) || Size(bufs'[c[i]]) == 0
    ensures rest != [] ==> !Special(bufs'[rest[0]])
  {
    hide Progress, Content, Sane;
    bufs' := bufs;
    rest := c;
    var left: nat := sent;
    assert Progress(bufs, bufs, c, 0, sent, sent) by {
      ProgressStart(bufs, c, sent);
    }
    ghost var k := 0;
    while rest != []
      invariant k <= |c| && rest == c[k..] && Progress(bufs, bufs', c, k, sent, left)
      decreases |rest|
    {
      ProgressParts(bufs, bufs', c, k, sent, left);
      ghost var bufs1 := bufs';
      var b := bufs'[rest[0]];
      if Special(b) {
        ProgressStep(bufs, bufs1, bufs', c, k, sent, left);
        rest := rest[1..];
        k := k + 1;
        continue;
      }
      if left == 0 {
        break;
      }
      var size := Size(b);
      if left >= size {
        left := left - size;
        bufs' := bufs'[rest[0] := Advanced(b, size)];
        ProgressStep(bufs, bufs1, bufs', c, k, sent, left + size);
        rest := rest[1..];
        k := k + 1;
        continue;
      }
      bufs' := bufs'[rest[0] := Advanced(b, left)];
      Finished(bufs, bufs1, bufs', c, k, sent, left);
      return;
    }
    ProgressParts(bufs, bufs', c, k, sent, left);
    Finished(bufs, bufs', bufs', c, k, sent, left);
  }

  lemma ProgressStart(bufs: seq<Buf>, c: seq<nat>, sent: nat)
    requires Chain(bufs, c) && sent <= |Bytes(bufs, c)|
    ensures Progress(bufs, bufs, c, 0, sent, sent)
  {
    assert c[0..] == c;
  }

  lemma ProgressParts(bufs: seq<Buf>, bufs': seq<Buf>, c: seq<nat>, k: nat, sent: nat, left: nat)
    requires Chain(bufs, c) && NoDup(c) && k <= |c| && Progress(bufs, bufs', c, k, sent, left)
    ensures |bufs'| == |bufs|
    ensures k < |c| ==> c[k] < |bufs| && Sane(bufs[c[k]]) && bufs'[c[k]] == bufs[c[k]]
    ensures k == |c| ==> left == 0
  {
    if k < |c| {
      ProgressRest(bufs, bufs', c, k, k);
    }
  }

  lemma Finished(bufs: seq<Buf>, bufs1: seq<Buf>, bufs': seq<Buf>, c: seq<nat>, k: nat, sent: nat, left: nat)
    requires Chain(bufs, c) && NoDup(c) && Loaded(bufs, c) && k <= |c| && Progress(bufs, bufs1, c, k, sent, left)
    requires if left == 0 then bufs' == bufs1 && (k < |c| ==> !Special(bufs[c[k]]))
             else k < |c| && !Special(bufs[c[k]]) && left < Size(bufs[c[k]]) && bufs1[c[k]] == bufs[c[k]]
                  && bufs' == bufs1[c[k] := Advanced(bufs[c[k]], left)]
    ensures var rest := c[k..];
            && OnlySent(bufs, bufs', c) && Chain(bufs', c) && Chain(bufs', rest) && Loaded(bufs', rest)
            && Bytes(bufs', rest) == Bytes(bufs, c)[sent..]
            && (forall i :: 0 <= i < k ==> Special(bufs'[c[i]]) || Size(bufs'[c[i]]) == 0)
            && (rest != [] ==> !Special(bufs'[rest[0]]))
  {
    hide Content, Special, Size, Sane, Bytes, OnlySent;
    FinishedOnly(bufs, bufs1, bufs', c, k);
    FinishedRest(bufs, bufs1, bufs', c, k, left);
    FinishedSent(bufs, bufs1, bufs', c, k, left);
  }

  /** What is sent stays as it was left. */
  lemma FinishedSent(bufs: seq<Buf>, bufs1: seq<Buf>, bufs': seq<Buf>, c: seq<nat>, k: nat, left: nat)
    requires Chain(bufs, c) && Chain(bufs1, c) && Chain(bufs', c) && NoDup(c) && k <= |c|
    requires if left == 0 then bufs' == bufs1 else k < |c| && bufs' == bufs1[c[k] := bufs'[c[k]]]
    requires forall i :: 0 <= i < k ==> Special(bufs1[c[i]]) || Size(bufs1[c[i]]) == 0
    ensures forall i :: 0 <= i < k ==> Special(bufs'[c[i]]) || Size(bufs'[c[i]]) == 0
  {
    hide Special, Size, Sane;
  }

  /** The rest of the chain is as before, but for the part sent of its first buffer. */
  lemma FinishedRest(bufs: seq<Buf>, bufs1: seq<Buf>, bufs': seq<Buf>, c: seq<nat>, k: nat, left: nat)
    requires Chain(bufs, c) && Chain(bufs', c) && NoDup(c) && Loaded(bufs, c) && k <= |c|
    requires OnlySent(bufs, bufs1, c[..k]) && Chain(bufs1, c)
    requires if left == 0 then bufs' == bufs1 && (k < |c| ==> !Special(bufs[c[k]]))
             else k < |c| && !Special(bufs[c[k]]) && left < Size(bufs[c[k]]) && bufs1[c[k]] == bufs[c[k]]
                  && bufs' == bufs1[c[k] := Advanced(bufs[c[k]], left)]
    ensures Chain(bufs, c[k..]) && Chain(bufs', c[k..]) && left <= |Bytes(bufs, c[k..])|
    ensures Bytes(bufs', c[k..]) == Bytes(bufs, c[k..])[left..] && Loaded(bufs', c[k..])
    ensures c[k..] != [] ==> !Special(bufs'[c[k..][0]])
  {
    hide Content, Special, Size, Sane, OnlySent, Bytes, NoDup, Loaded;
    var rest := c[k..];
    RestSame(bufs, bufs1, c, k);
    RestLoaded(bufs, c, k);
    if left == 0 {
      BytesSame(bufs, bufs', rest);
      LoadedSame(bufs, bufs', rest);
    } else {
      FinishedPart(bufs, bufs1, bufs', rest, left);
    }
  }

  lemma RestSame(bufs: seq<Buf>, bufs1: seq<Buf>, c: seq<nat>, k: nat)
    requires Chain(bufs, c) && Chain(bufs1, c) && NoDup(c) && k <= |c| && OnlySent(bufs, bufs1, c[..k])
    ensures Chain(bufs, c[k..]) && Chain(bufs1, c[k..]) && NoDup(c[k..])
    ensures forall i :: 0 <= i < |c[k..]| ==> bufs1[c[k..][i]] == bufs[c[k..][i]]
  {
    hide OnlySent, Sane;
    forall i | 0 <= i < |c[k..]|
      ensures bufs1[c[k..][i]] == bufs[c[k..][i]]
    {
      ProgressRest(bufs, bufs1, c, k, k + i);
    }
  }

  lemma RestLoaded(bufs: seq<Buf>, c: seq<nat>, k: nat)
    requires Chain(bufs, c) && Loaded(bufs, c) && k <= |c|
    ensures Chain(bufs, c[k..]) && Loaded(bufs, c[k..])
  {
    hide Special, Size, Sane;
  }

  lemma LoadedSame(bufs: seq<Buf>, bufs': seq<Buf>, c: seq<nat>)
    requires Chain(bufs, c) && Chain(bufs', c) && Loaded(bufs, c)
    requires forall i :: 0 <= i < |c| ==> bufs'[c[i]] == bufs[c[i]]
    ensures Loaded(bufs', c)
  {
    hide Special, Size, Sane;
  }

  /** A part of the first buffer went out. */
  lemma FinishedPart(bufs: seq<Buf>, bufs1: seq<Buf>, bufs': seq<Buf>, c: seq<nat>, left: nat)
    requires Chain(bufs, c) && Chain(bufs1, c) && Chain(bufs', c) && NoDup(c) && Loaded(bufs, c) && c != []
    requires forall i :: 0 <= i < |c| ==> bufs1[c[i]] == bufs[c[i]]
    requires !Special(bufs[c[0]]) && left < Size(bufs[c[0]]) && bufs' == bufs1[c[0] := Advanced(bufs[c[0]], left)]
    ensures left <= |Bytes(bufs, c)| && Bytes(bufs', c) == Bytes(bufs, c)[left..] && Loaded(bufs', c)
    ensures !Special(bufs'[c[0]])
  {
    hide Content, Special, Size, Sane, Loaded, Advanced;
    var bufs2 := bufs[c[0] := Advanced(bufs[c[0]], left)];
    AdvancedSize(bufs[c[0]], left);
    forall i | 0 <= i < |c|
      ensures bufs'[c[i]] == bufs2[c[i]] && Sane(bufs2[c[i]])
    {
    }
    PartlySent(bufs, bufs2, c, left);
    BytesSame(bufs2, bufs', c);
    PartLoaded(bufs, bufs', c);
  }

  lemma PartLoaded(bufs: seq<Buf>, bufs': seq<Buf>, c: seq<nat>)
    requires Chain(bufs, c) && Chain(bufs', c) && Loaded(bufs, c) && c != [] && Size(bufs'[c[0]]) > 0
    requires forall i :: 1 <= i < |c| ==> bufs'[c[i]] == bufs[c[i]]
    ensures Loaded(bufs', c)
  {
    hide Special, Size, Sane;
  }

  lemma AdvancedSize(b: Buf, n: nat)
    requires Sane(b) && n <= Size(b)
    ensures Size(Advanced(b, n)) == Size(b) - n && (Special(Advanced(b, n)) <==> Special(b))
  {
  }

  lemma FinishedOnly(bufs: seq<Buf>, bufs1: seq<Buf>, bufs': seq<Buf>, c: seq<nat>, k: nat)
    requires k <= |c| && OnlySent(bufs, bufs1, c[..k]) && Chain(bufs, c) && Chain(bufs1, c)
    requires bufs' == bufs1 || (k < |c| && bufs1[c[k]] == bufs[c[k]]
                                && exists n: nat :: n <= Size(bufs[c[k]])
                                                    && bufs' == bufs1[c[k] := Advanced(bufs[c[k]], n)])
    ensures OnlySent(bufs, bufs', c) && Chain(bufs', c)
  {
    hide Size, Special, Content, Sane, OnlySent, Advanced;
    SentWider(bufs, bufs1, c, k);
    if bufs' != bufs1 {
      var n: nat :| n <= Size(bufs[c[k]]) && bufs' == bufs1[c[k] := Advanced(bufs[c[k]], n)];
      AdvancedSane(bufs[c[k]], n);
      SentMore(bufs, bufs1, bufs', c, c[k]);
      forall i | 0 <= i < |c|
        ensures Sane(bufs'[c[i]])
      {
      }
    }
  }

  lemma SentWider(bufs: seq<Buf>, bufs1: seq<Buf>, c: seq<nat>, k: nat)
    requires k <= |c| && OnlySent(bufs, bufs1, c[..k])
    ensures OnlySent(bufs, bufs1, c)
  {
  }

  lemma SentMore(bufs: seq<Buf>, bufs1: seq<Buf>, bufs': seq<Buf>, c: seq<nat>, x: nat)
    requires OnlySent(bufs, bufs1, c) && x in c && x < |bufs| == |bufs'| && bufs' == bufs1[x := bufs'[x]]
    requires bufs'[x] == bufs[x].(pos := bufs'[x].pos, filePos := bufs'[x].filePos)
    ensures OnlySent(bufs, bufs', c)
  {
  }

  lemma AdvancedSane(b: Buf, n: nat)
    requires Sane(b) && n <= Size(b)
    ensures Sane(Advanced(b, n))
    ensures Advanced(b, n) == b.(pos := Advanced(b, n).pos, filePos := Advanced(b, n).filePos)
  {
  }

  lemma SpecialEmpty(b: Buf)
    requires Sane(b) && Special(b)
    ensures Content(b) == []
  {
  }

  lemma PartlySent(bufs: seq<Buf>, bufs': seq<Buf>, c: seq<nat>, n: nat)
    requires Chain(bufs, c) && Chain(bufs', c) && NoDup(c) && c != [] && n < Size(bufs[c[0]])
    requires bufs' == bufs[c[0] := Advanced(bufs[c[0]], n)]
    ensures Bytes(bufs', c) == Bytes(bufs, c)[n..]
  {
    hide Content, Sane, Advanced, Size;
    var head, tail := Content(bufs[c[0]]), c[1..];
    forall i | 0 <= i < |tail| ensures tail[i] == c[i + 1] && bufs'[tail[i]] == bufs[tail[i]] {
    }
    BytesSame(bufs, bufs', tail);
    assert (head + Bytes(bufs, tail))[n..] == head[n..] + Bytes(bufs, tail);
  }
}
