/** The text form of IPv6 addresses: `ngx_inet6_ntop()`, `ngx_inet6_addr()` and `ngx_inet_addr()`. */
module Inet6 {
  import opened Words

  /** Sixteen bytes, most significant first. */
  type Address = seq<byte>

  /** The 16-bit word at byte `i`. */
  function WordAt(a: Address, i: nat): (w: nat)
    requires i + 1 < |a|
    ensures w < 0x10000
  {
    a[i] as nat * 256 + a[i + 1] as nat
  }

  function High(w: nat): byte { (w / 256 % 256) as byte }

  function Low(w: nat): byte { (w % 256) as byte }

  // ----- printing

  function HexDigit(n: nat): char
    requires n < 16
  {
    if n < 10 then ('0' as int + n) as char else ('a' as int + n - 10) as char
  }

  /** The conversion %xd: no leading zeros. */
  function Hex(n: nat): (s: string)
    ensures s != []
  {
    if n < 16 then [HexDigit(n)] else Hex(n / 16) + [HexDigit(n % 16)]
  }

  /** The conversion %ud. */
  function Dec(n: nat): (s: string)
    ensures s != []
  {
    if n < 10 then [HexDigit(n)] else Dec(n / 10) + [HexDigit(n % 10)]
  }

  /** The digits of sections 4.1 and 4.3 of RFC 5952: no leading zeros, and small letters. */
  lemma {:induction false} HexPlain(n: nat)
    ensures if n == 0 then Hex(n) == "0" else Hex(n)[0] != '0'
    ensures forall c <- Hex(n) :: c in "0123456789abcdef"
  {
    DigitPlain(n % 16);
    if n >= 16 {
      HexPlain(n / 16);
    }
  }

  lemma DigitPlain(n: nat)
    requires n < 16
    ensures HexDigit(n) == "0123456789abcdef"[n] && HexDigit(n) in "0123456789abcdef"
    ensures n != 0 ==> HexDigit(n) != '0'
  {
  }

  /** A run of zero words, from the word at byte `z` on, `m` words long. */
  ghost predicate ZeroRun(a: Address, z: nat, m: nat) {
    z % 2 == 0 && z + 2 * m <= |a| && forall k :: z <= k < z + 2 * m ==> a[k] == 0
  }

  const NO_RUN: int := -1

  /** The leftmost of the longest runs of at least two zero words, as section 4.2 of RFC 5952 asks. */
  ghost predicate LeftmostLongest(a: Address, zero: int, max: nat) {
    && 1 <= max
    && (zero == NO_RUN ==> max == 1)
    && (zero != NO_RUN ==> zero >= 0 && max >= 2 && ZeroRun(a, zero, max))
    && forall z: nat, m: nat :: ZeroRun(a, z, m) && m >= 2 ==> m < max || (m == max && zero <= z)
  }

  /** The search for the longest run. */
  method LongestRun(p: Address) returns (zero: int, max: nat)
    requires |p| == 16
    ensures LeftmostLongest(p, zero, max)
  {
    hide Best, ZeroRun, WordBreaks, LeftmostLongest, Even;
    zero, max := NO_RUN, 1;
    BestStart(p);
    EvenStart();
    var last, n, i := NO_RUN, 0, 0;
    while i < 16
      invariant i <= 16 && Even(i)
      invariant n > 0 ==> last >= 0 && last + 2 * n == i && ZeroRun(p, last, n)
      invariant 0 < i && n < i / 2 ==> WordBreaks(p, i - 2 * n)
      invariant 2 * n <= i
      invariant Best(p, zero, max, i - 2 * n)
    {
      EvenRoom(i);
      if p[i] != 0 || p[i + 1] != 0 {
        RunEnds(p, zero, max, i, n);
        if max < n {
          zero, max := last, n;
        }
        n := 0;
        i := i + 2;
        BreakBehind(p, zero, max, i);
        continue;
      }
      RunGrows(p, i - 2 * n, n);
      if n == 0 {
        last := i;
      }
      n := n + 1;
      i := i + 2;
    }
    EvenRoom(i);
    RunEnds(p, zero, max, 16, n);
    if max < n {
      zero, max := last, n;
    }
    BestOfAll(p, zero, max);
  }

  lemma EvenRoom(i: nat)
    requires Even(i) && i <= 16
    ensures Even(i + 2) && (i < 16 ==> i + 2 <= 16)
  {
  }

  lemma BestStart(a: Address)
    requires |a| == 16
    ensures Best(a, NO_RUN, 1, 0)
  {
  }

  lemma BestOfAll(a: Address, zero: int, max: nat)
    requires |a| == 16 && Best(a, zero, max, 16)
    ensures LeftmostLongest(a, zero, max)
  {
  }

  /** A word that is not zero ends a run, and no run ends with it. */
  lemma BreakBehind(a: Address, zero: int, max: nat, i: nat)
    requires |a| == 16 && 2 <= i <= 16 && Even(i) && (a[i - 2] != 0 || a[i - 1] != 0) && Best(a, zero, max, i - 2)
    ensures WordBreaks(a, i) && Best(a, zero, max, i)
  {
    forall z: nat, m: nat | ZeroRun(a, z, m) && m >= 2 && z + 2 * m <= i
      ensures z + 2 * m <= i - 2
    {
      RunsStop(a, i, z, m);
    }
  }

  lemma RunGrows(a: Address, z: nat, n: nat)
    requires |a| == 16 && Even(z + 2 * n) && z + 2 * n + 2 <= 16 && a[z + 2 * n] == 0 && a[z + 2 * n + 1] == 0
    requires n > 0 ==> ZeroRun(a, z, n)
    ensures ZeroRun(a, z, n + 1)
  {
  }

  /** The word before byte `i` is not zero, so that no run contains it. */
  predicate WordBreaks(a: Address, i: int) { 2 <= i <= |a| && (a[i - 2] != 0 || a[i - 1] != 0) }

  /** The best run among those that end by byte `i`. */
  ghost predicate Best(a: Address, zero: int, max: nat, i: int) {
    && 1 <= max
    && (zero == NO_RUN ==> max == 1)
    && (zero != NO_RUN ==> 0 <= zero && zero + 2 * max <= i && max >= 2 && ZeroRun(a, zero, max))
    && forall z: nat, m: nat :: ZeroRun(a, z, m) && m >= 2 && z + 2 * m <= i ==> m < max || (m == max && zero <= z)
  }

  /** The run of `n` words that ends at byte `i` is compared with the best so far. */
  lemma RunEnds(a: Address, zero: int, max: nat, i: nat, n: nat)
    requires |a| == 16 && i <= 16 && Even(i) && 2 * n <= i && Best(a, zero, max, i - 2 * n)
    requires n > 0 ==> ZeroRun(a, i - 2 * n, n)
    requires 0 < i && n < i / 2 ==> WordBreaks(a, i - 2 * n)
    ensures Best(a, if max < n then i - 2 * n else zero, if max < n then n else max, i)
  {
    var s := i - 2 * n;
    forall z: nat, m: nat | ZeroRun(a, z, m) && m >= 2 && z + 2 * m <= i
      ensures z + 2 * m <= s || z >= s
    {
      if 0 < s {
        RunsStop(a, s, z, m);
      }
    }
  }

  lemma RunsStop(a: Address, s: nat, z: nat, m: nat)
    requires WordBreaks(a, s) && s % 2 == 0 && ZeroRun(a, z, m)
    ensures z + 2 * m <= s || z >= s
  {
  }

  /** Words start at even bytes. */
  predicate Even(i: int) { i % 2 == 0 }

  lemma EvenSteps(i: nat, n: nat, max: nat)
    requires Even(i) && Even(n)
    ensures Even(16) && Even(i + 2) && Even(i + 2 * max) && (i < n ==> i + 2 <= n)
  {
  }

  /** Whether the last four bytes are printed as an IPv4 address. */
  predicate Dotted(a: Address, zero: int, max: nat)
    requires |a| == 16
  {
    zero == 0 && ((max == 5 && a[10] == 255 && a[11] == 255) || max == 6 || (max == 7 && a[14] != 0 && a[15] != 1))
  }

  /** The text of the words from byte `i` to byte `n`, with the run left out. */
  function WordsText(a: Address, i: nat, n: nat, zero: int, max: nat): string
    requires |a| == 16 && Even(i) && n <= 16 && Even(n) && (zero != NO_RUN ==> max >= 2)
    decreases 16 + 2 * max - i
  {
    if i >= n then ""
    else if i == zero then ":" + WordsText(a, i + 2 * max, n, zero, max)
    else Hex(WordAt(a, i)) + (if i < 14 then ":" else "") + WordsText(a, i + 2, n, zero, max)
  }

  function Quad(a: Address): string
    requires |a| == 16
  {
    Dec(a[12] as nat) + "." + Dec(a[13] as nat) + "." + Dec(a[14] as nat) + "." + Dec(a[15] as nat)
  }

  /** The text of an address whose run of zeros has been found. */
  function Text(a: Address, zero: int, max: nat): string
    requires |a| == 16 && (zero != NO_RUN ==> max >= 2)
  {
    (if zero == 0 then ":" else "") +
    if Dotted(a, zero, max) then WordsText(a, 0, 12, zero, max) + Quad(a) else WordsText(a, 0, 16, zero, max)
  }

  /** NGX_INET6_ADDRSTRLEN. */
  const MAX_TEXT: nat := 45

  /** ngx_inet6_ntop(). */
  method Ntop(p: Address, len: nat) returns (text: string, ghost zero: int, ghost max: nat)
    requires |p| == 16
    ensures LeftmostLongest(p, zero, max)
    ensures text == if len < MAX_TEXT then "" else Text(p, zero, max)
  {
    var z, m := LongestRun(p);
    zero, max := z, m;
    if len < MAX_TEXT {
      return "", z, m;
    }
    var n := 16;
    text := "";
    if z == 0 {
      if (m == 5 && p[10] == 0xff && p[11] == 0xff) || m == 6 || (m == 7 && p[14] != 0 && p[15] != 1) {
        n := 12;
      }
      text := ":";
    }
    ghost var start := text;
    var words := PrintWords(p, n, z, m);
    text := text + words;
    if n == 12 {
      text := text + Quad(p);
      assert text == start + (words + Quad(p));
    }
  }

  /** What is still to be printed at byte `i`. */
  ghost function Rest(a: Address, i: nat, n: nat, zero: int, max: nat): string
    requires |a| == 16 && Even(i) && n <= 16 && Even(n) && (zero != NO_RUN ==> max >= 2)
  {
    WordsText(a, i, n, zero, max)
  }

  lemma RestStep(a: Address, i: nat, n: nat, zero: int, max: nat, dst: string)
    requires |a| == 16 && Even(i) && i < n <= 16 && Even(n) && (zero != NO_RUN ==> max >= 2)
    ensures dst + Rest(a, i, n, zero, max) ==
            if i == zero then dst + ":" + Rest(a, i + 2 * max, n, zero, max)
            else dst + (Hex(WordAt(a, i)) + if i < 14 then ":" else "") + Rest(a, i + 2, n, zero, max)
  {
    hide Hex;
    if i == zero {
      var rest := WordsText(a, i + 2 * max, n, zero, max);
      assert dst + (":" + rest) == dst + ":" + rest;
    } else {
      var h, c, rest := Hex(WordAt(a, i)), if i < 14 then ":" else "", WordsText(a, i + 2, n, zero, max);
      assert dst + (h + c + rest) == dst + (h + c) + rest;
    }
  }

  /** The loop over the words. */
  method PrintWords(p: Address, n: nat, zero: int, max: nat) returns (dst: string)
    requires |p| == 16 && n <= 16 && Even(n) && (zero != NO_RUN ==> max >= 2)
    ensures dst == WordsText(p, 0, n, zero, max)
  {
    dst := "";
    var i := 0;
    assert Rest(p, 0, n, zero, max) == WordsText(p, 0, n, zero, max);
    while i < n
      invariant Even(i)
      invariant WordsText(p, 0, n, zero, max) == dst + Rest(p, i, n, zero, max)
      decreases 16 + 2 * max - i
    {
      hide Hex, Rest, WordsText, Even;
      EvenSteps(i, n, max);
      RestStep(p, i, n, zero, max, dst);
      if i == zero {
        dst := dst + ":";
        i := i + (max - 1) * 2;
        i := i + 2;
        continue;
      }
      var group := PrintGroup(p, i);
      dst := dst + group;
      i := i + 2;
    }
  }

  /** One group, and the colon behind it. */
  method PrintGroup(p: Address, i: nat) returns (group: string)
    requires i + 1 < |p|
    ensures group == Hex(WordAt(p, i)) + if i < 14 then ":" else ""
  {
    group := Hex(p[i] as nat * 256 + p[i + 1] as nat);
    if i < 14 {
      group := group + ":";
    } else {
      assert group + "" == group;
    }
  }

  // ----- the text fits the buffer

  lemma HexLength(n: nat)
    ensures n < 16 ==> |Hex(n)| == 1
    ensures n < 0x100 ==> |Hex(n)| <= 2
    ensures n < 0x1000 ==> |Hex(n)| <= 3
    ensures n < 0x10000 ==> |Hex(n)| <= 4
  {
    if n >= 16 {
      HexLength(n / 16);
    }
  }

  lemma DecLength(n: nat)
    ensures n < 10 ==> |Dec(n)| == 1
    ensures n < 100 ==> |Dec(n)| <= 2
    ensures n < 1000 ==> |Dec(n)| <= 3
  {
    if n >= 10 {
      DecLength(n / 10);
    }
  }

  lemma {:induction false} WordsLength(a: Address, i: nat, n: nat, zero: int, max: nat)
    requires |a| == 16 && Even(i) && n <= 16 && Even(n) && (zero != NO_RUN ==> max >= 2)
    ensures 2 * |WordsText(a, i, n, zero, max)| <= if i < n then 5 * (n - i) else 0
    decreases 16 + 2 * max - i
  {
    hide Hex, Even;
    if i < n {
      EvenSteps(i, n, max);
      if i == zero {
        WordsLength(a, i + 2 * max, n, zero, max);
      } else {
        WordsLength(a, i + 2, n, zero, max);
        WordLength(a, i);
        hide WordAt;
      }
    }
  }

  lemma WordLength(a: Address, i: nat)
    requires i + 1 < |a|
    ensures |Hex(WordAt(a, i))| <= 4
  {
    HexLength(WordAt(a, i));
  }

  /** Every text fits the buffer the callers provide. */
  lemma TextFits(a: Address, zero: int, max: nat)
    requires |a| == 16 && LeftmostLongest(a, zero, max)
    ensures |Text(a, zero, max)| <= MAX_TEXT
  {
    hide Hex, Dec;
    WordsLength(a, 0, 16, zero, max);
    if Dotted(a, zero, max) {
      WordsLength(a, 2 * max, 12, zero, max);
      DecLength(a[12] as nat);
      DecLength(a[13] as nat);
      DecLength(a[14] as nat);
      DecLength(a[15] as nat);
    }
  }

  // ----- parsing: what a text means

  const INADDR_NONE: nat := 0xffff_ffff

  predicate IsDigit(c: char) { '0' <= c <= '9' }

  /** The value of a hexadecimal digit of either case; the code sets bit 5 of the character. */
  function HexValue(c: char): Option<nat> {
    if IsDigit(c) then Some(c as nat - '0' as nat)
    else if 'a' <= c <= 'f' then Some(c as nat - 'a' as nat + 10)
    else if 'A' <= c <= 'F' then Some(c as nat - 'A' as nat + 10)
    else None
  }

  /** An IPv4 address in dotted form, from the octet `octet` under way on, with `n` octets read before it. */
  function Inet4(s: string, addr: nat, octet: nat, n: nat): Option<nat> {
    if s == [] then
      if n == 3 then Some((addr * 256 + octet) % 0x1_0000_0000) else None
    else if IsDigit(s[0]) then
      var o := octet * 10 + (s[0] as nat - '0' as nat);
      if o > 255 then None else Inet4(s[1..], addr, o, n)
    else if s[0] == '.' then
      Inet4(s[1..], (addr * 256 + octet) % 0x1_0000_0000, 0, n + 1)
    else
      None
  }

  /** How far a text has been read: the bytes so far, the place of the "::" among them, the text from
      the current group on if a colon has been read, and the current group. */
  datatype Scanner = Scanner(out: seq<byte>, zero: Option<nat>, group: Option<string>, nibbles: nat, word: nat)

  function Read(s: string, st: Scanner): Option<Address>
    decreases |s|
  {
    if s == [] then Finish(st)
    else if s[0] == ':' then
      if st.nibbles > 0 then
        var out := st.out + [High(st.word), Low(st.word)];
        if |out| < 16 then Read(s[1..], Scanner(out, st.zero, Some(s[1..]), 0, 0)) else None
      else if st.zero.None? then Read(s[1..], Scanner(st.out, Some(|st.out|), Some(s[1..]), 0, st.word))
      else None
    else if s[0] == '.' && st.nibbles > 0 then ReadDotted(st)
    else if st.nibbles + 1 > 4 then None
    else
      var v :- HexValue(s[0]);
      Read(s[1..], st.(nibbles := st.nibbles + 1, word := st.word * 16 + v))
  }

  /** The current group turns out to be an IPv4 address, which takes the rest of the text. */
  function ReadDotted(st: Scanner): Option<Address> {
    if |st.out| > 12 || st.group.None? then None
    else
      var w :- Inet4(st.group.value, 0, 0, 0);
      if w == INADDR_NONE then None
      else Finish(st.(out := st.out + [High(w / 0x10000), Low(w / 0x10000)], word := w % 0x10000))
  }

  /** The last group is added, and the "::" is made as wide as it has to be. */
  function Finish(st: Scanner): Option<Address> {
    if st.nibbles == 0 && st.zero.None? then None
    else
      var out := st.out + [High(st.word), Low(st.word)];
      if |out| < 16 then
        var z :- st.zero;
        if z <= |out| then Some(out[..z] + Zeros(16 - |out|) + out[z..]) else None
      else if st.zero.None? then Some(out)
      else None
  }

  function Zeros(n: nat): seq<byte> { seq(n, i => 0) }

  /** The address that a text denotes, if any. */
  function Meaning(text: string): Option<Address> {
    if text == [] then None
    else Read(if text[0] == ':' then text[1..] else text, Scanner([], None, None, 0, 0))
  }

  // ----- parsing: how it is done

  /** ngx_inet_addr(), in host byte order. */
  method InetAddr(text: string) returns (addr: nat)
    ensures addr == var r := Inet4(text, 0, 0, 0); if r.Some? then r.value else INADDR_NONE
  {
    addr := 0;
    var octet: nat, n: nat, p := 0, 0, 0;
    while p < |text|
      invariant p <= |text| && Inet4(text, 0, 0, 0) == Inet4(text[p..], addr, octet, n)
    {
      var c := text[p];
      if '0' <= c <= '9' {
        octet := octet * 10 + (c as nat - '0' as nat);
        if octet > 255 {
          return INADDR_NONE;
        }
      } else if c == '.' {
        addr := (addr * 256 + octet) % 0x1_0000_0000;
        octet := 0;
        n := n + 1;
      } else {
        return INADDR_NONE;
      }
      assert text[p..][1..] == text[p + 1..];
      p := p + 1;
    }
    if n == 3 {
      addr := (addr * 256 + octet) % 0x1_0000_0000;
      return addr;
    }
    return INADDR_NONE;
  }

  /** The state of the loop of ngx_inet6_addr(), as a scanner. */
  ghost function Scanned(text: string, out: seq<byte>, zero: Option<nat>, digit: Option<nat>, nibbles: nat,
          word: nat): Scanner
    requires digit.Some? ==> digit.value <= |text|
  {
    Scanner(out, zero, if digit.None? then None else Some(text[digit.value..]), nibbles, word)
  }

  /** The two bytes of a group. */
  method PutWord(addr: array<byte>, a: nat, word: nat)
    requires a + 2 <= addr.Length
    modifies addr
    ensures addr[..a + 2] == old(addr[..a]) + [High(word), Low(word)]
  {
    addr[a] := High(word);
    addr[a + 1] := Low(word);
  }

  /** ngx_inet6_addr(): `addr` is the buffer for the sixteen bytes. */
  method Parse(text: string, addr: array<byte>) returns (ok: bool)
    requires addr.Length == 16
    modifies addr
    ensures ok <==> Meaning(text).Some?
    ensures ok ==> addr[..] == Meaning(text).value
  {
    hide Even, High, Low, HexValue, Finish, Meaning, Inet4;
    MeaningStart(text);
    if |text| == 0 {
      return false;
    }
    var zero: Option<nat>, digit: Option<nat>, nibbles: nat, word: nat, a, k := None, None, 0, 0, 0, 0;
    if text[0] == ':' {
      k := 1;
    }
    EvenStart();
    assert addr[..a] == [];
    while k < |text|
      invariant k <= |text| && a <= 14 && Even(a) && (zero.Some? ==> zero.value <= a)
      invariant digit.Some? ==> digit.value <= |text|
      invariant Meaning(text) == Read(text[k..], Scanned(text, addr[..a], zero, digit, nibbles, word))
    {
      var c := text[k];
      ghost var st, rest := Scanned(text, addr[..a], zero, digit, nibbles, word), text[k..];
      assert rest[1..] == text[k + 1..];
      k := k + 1;
      if c == ':' {
        if nibbles > 0 {
          digit := Some(k);
          EvenSteps(a, 16, 0);
          PutWord(addr, a, word);
          a := a + 2;
          if a == 16 {
            return false;
          }
          nibbles, word := 0, 0;
        } else if zero == None {
          digit := Some(k);
          zero := Some(a);
        } else {
          return false;
        }
      } else if c == '.' && nibbles > 0 {
        if a > 12 || digit == None {
          return false;
        }
        var w := InetAddr(text[digit.value..]);
        if w == INADDR_NONE {
          return false;
        }
        EvenSteps(a, 16, 0);
        PutWord(addr, a, w / 0x10000);
        a := a + 2;
        word := w % 0x10000;
        ok := Complete(addr, a, zero, nibbles, word, Scanned(text, addr[..a], zero, digit, nibbles, word));
        return;
      } else {
        nibbles := nibbles + 1;
        if nibbles > 4 {
          return false;
        }
        var v := HexValue(c);
        if v == None {
          return false;
        }
        word := word * 16 + v.value;
      }
    }
    assert text[k..] == [];
    ok := Complete(addr, a, zero, nibbles, word, Scanned(text, addr[..a], zero, digit, nibbles, word));
  }

  lemma MeaningStart(text: string)
    ensures text == [] ==> Meaning(text).None?
    ensures text != [] ==> Meaning(text) == Read(text[if text[0] == ':' then 1 else 0..], Scanner([], None, None, 0, 0))
  {
    assert text[0..] == text;
  }

  lemma EvenStart()
    ensures Even(0)
  {
  }

  /** The part of ngx_inet6_addr() behind the loop: the last group, and the gap. */
  method Complete(addr: array<byte>, a0: nat, zero: Option<nat>, nibbles: nat, word: nat, ghost st: Scanner)
    returns (ok: bool)
    requires addr.Length == 16 && a0 <= 14 && Even(a0) && (zero.Some? ==> zero.value <= a0)
    requires st.out == addr[..a0] && st.zero == zero && st.nibbles == nibbles && st.word == word
    modifies addr
    ensures ok <==> Finish(st).Some?
    ensures ok ==> addr[..] == Finish(st).value
  {
    if nibbles == 0 && zero == None {
      return false;
    }
    PutWord(addr, a0, word);
    var a := a0 + 2;
    ghost var out := addr[..a];
    var n := 8 - a / 2;
    if n > 0 {
      if zero == None {
        return false;
      }
      var z := zero.value;
      Widen(addr, z, a, n * 2);
      return true;
    }
    assert addr[..] == out;
    return zero == None;
  }

  /** The bytes from `z` on move `n` places up, and zeros take their place. */
  method Widen(addr: array<byte>, z: nat, a: nat, n: nat)
    requires z <= a && a + n == addr.Length
    modifies addr
    ensures addr[..] == old(addr[..z]) + Zeros(n) + old(addr[z..a])
  {
    MoveUp(addr, z, a, n);
    ghost var tail := addr[z + n..];
    Clear(addr, z, n);
  }

  method MoveUp(addr: array<byte>, z: nat, a: nat, n: nat)
    requires z <= a && a + n == addr.Length
    modifies addr
    ensures addr[..z] == old(addr[..z]) && addr[z + n..] == old(addr[z..a])
  {
    var s := a - 1;
    ghost var was := addr[..];
    while s >= z
      invariant z - 1 <= s < a
      invariant addr[..s + 1] == was[..s + 1] && addr[s + 1 + n..] == was[s + 1..a]
    {
      ghost var now := addr[..];
      addr[s + n] := addr[s];
      assert addr[s + n..] == [was[s]] + now[s + 1 + n..];
      s := s - 1;
    }
  }

  /** ngx_memzero(). */
  method Clear(addr: array<byte>, z: nat, n: nat)
    requires z + n <= addr.Length
    modifies addr
    ensures addr[..] == old(addr[..z]) + Zeros(n) + old(addr[z + n..])
  {
    var i := z;
    while i < z + n
      invariant z <= i <= z + n
      invariant forall j :: 0 <= j < z || z + n <= j < addr.Length ==> addr[j] == old(addr[j])
      invariant forall j :: z <= j < i ==> addr[j] == 0
    {
      addr[i] := 0;
      i := i + 1;
    }
  }

  // ----- what is printed is parsed back

  lemma HexOf(n: nat)
    requires n < 16
    ensures HexValue(HexDigit(n)) == Some(n) && HexDigit(n) != ':' && HexDigit(n) != '.'
  {
  }

  /** A printed group is read as its value. */
  lemma {:induction false} ReadHex(n: nat, rest: string, st: Scanner)
    requires st.nibbles == 0 && st.word == 0 && |Hex(n)| <= 4
    ensures Read(Hex(n) + rest, st) == Read(rest, st.(nibbles := |Hex(n)|, word := n))
  {
    if n < 16 {
      HexOf(n);
      assert (Hex(n) + rest)[1..] == rest;
    } else {
      var d := [HexDigit(n % 16)];
      HexOf(n % 16);
      ReadHex(n / 16, d + rest, st);
      assert Hex(n) + rest == Hex(n / 16) + (d + rest);
      assert (d + rest)[1..] == rest;
    }
  }

  /** The octets of an IPv4 address are read as hexadecimal groups at first. */
  lemma {:induction false} ReadDec(n: nat, rest: string, st: Scanner) returns (w: nat)
    requires st.nibbles == 0 && |Dec(n)| <= 4
    ensures Read(Dec(n) + rest, st) == Read(rest, st.(nibbles := |Dec(n)|, word := w))
  {
    if n < 10 {
      HexOf(n);
      assert (Dec(n) + rest)[1..] == rest;
      w := st.word * 16 + n;
    } else {
      var d := [HexDigit(n % 10)];
      HexOf(n % 10);
      w := ReadDec(n / 10, d + rest, st);
      assert Dec(n) + rest == Dec(n / 10) + (d + rest);
      assert (d + rest)[1..] == rest;
      w := w * 16 + n % 10;
    }
  }

  lemma {:induction false} Inet4Dec(n: nat, rest: string, addr: nat, k: nat)
    requires n <= 255
    ensures Inet4(Dec(n) + rest, addr, 0, k) == Inet4(rest, addr, n, k)
  {
    if n < 10 {
      assert (Dec(n) + rest)[1..] == rest;
    } else {
      var d := [HexDigit(n % 10)];
      Inet4Dec(n / 10, d + rest, addr, k);
      assert Dec(n) + rest == Dec(n / 10) + (d + rest);
      assert (d + rest)[1..] == rest;
    }
  }

  function QuadValue(a: Address): nat
    requires |a| == 16
  {
    a[12] as nat * 0x100_0000 + a[13] as nat * 0x1_0000 + a[14] as nat * 0x100 + a[15] as nat
  }

  lemma Inet4Dot(n: nat, rest: string, addr: nat, k: nat)
    requires n <= 255 && addr * 256 + n < 0x1_0000_0000
    ensures Inet4(Dec(n) + ("." + rest), addr, 0, k) == Inet4(rest, addr * 256 + n, 0, k + 1)
  {
    Inet4Dec(n, "." + rest, addr, k);
    assert ("." + rest)[1..] == rest;
  }

  lemma Inet4End(addr: nat, octet: nat)
    requires addr * 256 + octet < 0x1_0000_0000
    ensures Inet4([], addr, octet, 3) == Some(addr * 256 + octet)
  {
  }

  lemma QuadMeans(a: Address)
    requires |a| == 16
    ensures Inet4(Quad(a), 0, 0, 0) == Some(QuadValue(a))
  {
    hide Dec, Inet4;
    var d := Dec(a[15] as nat);
    var c := Dec(a[14] as nat) + ("." + d);
    var b := Dec(a[13] as nat) + ("." + c);
    assert Quad(a) == Dec(a[12] as nat) + ("." + b);
    Inet4Dot(a[12] as nat, b, 0, 0);
    Inet4Dot(a[13] as nat, c, a[12] as nat, 1);
    Inet4Dot(a[14] as nat, d, a[12] as nat * 256 + a[13] as nat, 2);
    assert d + [] == d;
    Inet4Dec(a[15] as nat, [], (a[12] as nat * 256 + a[13] as nat) * 256 + a[14] as nat, 3);
    Inet4End((a[12] as nat * 256 + a[13] as nat) * 256 + a[14] as nat, a[15] as nat);
  }

  /** The dotted tail is read as the last four bytes, unless they are all 255. */
  lemma ReadQuad(a: Address, st: Scanner)
    requires |a| == 16 && st.nibbles == 0 && st.group == Some(Quad(a)) && st.zero.Some? && |st.out| <= 10
             && st.zero.value <= |st.out|
    ensures Read(Quad(a), st) ==
            if a[12] == 255 && a[13] == 255 && a[14] == 255 && a[15] == 255 then None
            else Some(st.out[..st.zero.value] + Zeros(12 - |st.out|) + (st.out + a[12..])[st.zero.value..])
  {
    var rest := Dec(a[13] as nat) + "." + Dec(a[14] as nat) + "." + Dec(a[15] as nat);
    assert Quad(a) == Dec(a[12] as nat) + ("." + rest);
    DecLength(a[12] as nat);
    var w := ReadDec(a[12] as nat, "." + rest, st);
    QuadMeans(a);
    hide Dec, Inet4, Quad;
    QuadBytes(a);
    var st' := st.(nibbles := |Dec(a[12] as nat)|, word := w);
    assert Read("." + rest, st') == ReadDotted(st');
    var v := QuadValue(a);
    var out := st.out + a[12..];
    assert st.out + [High(v / 0x10000), Low(v / 0x10000)] + [High(v % 0x10000), Low(v % 0x10000)] == out;
    assert out[..st.zero.value] == st.out[..st.zero.value];
    hide High, Low, QuadValue;
  }

  lemma QuadBytes(a: Address)
    requires |a| == 16
    ensures var v := QuadValue(a);
            && High(v / 0x10000) == a[12] && Low(v / 0x10000) == a[13] && High(v % 0x10000) == a[14]
            && Low(v % 0x10000) == a[15]
            && (v == INADDR_NONE <==> a[12] == 255 && a[13] == 255 && a[14] == 255 && a[15] == 255)
  {
    var hi, lo := a[12] as nat * 256 + a[13] as nat, a[14] as nat * 256 + a[15] as nat;
    assert QuadValue(a) == hi * 0x10000 + lo;
    assert QuadValue(a) / 0x10000 == hi && QuadValue(a) % 0x10000 == lo;
  }

  /** How far a text printed from `a` has been read when the word at byte `i` is next. */
  ghost predicate ReadUpTo(a: Address, zero: int, max: nat, i: nat, st: Scanner)
    requires |a| == 16
  {
    && st.nibbles == 0 && st.word == 0
    && if zero == NO_RUN || i <= zero then i <= 14 && st.out == a[..i] && st.zero == None
       else && zero >= 0 && zero + 2 * max <= i <= 16 && st.out == a[..zero] + a[zero + 2 * max..i]
            && st.zero == Some(zero as nat)
  }

  lemma WordBytes(a: Address, i: nat)
    requires i + 1 < |a|
    ensures [High(WordAt(a, i)), Low(WordAt(a, i))] == a[i..i + 2]
  {
  }

  lemma ReadColon(s: string, st: Scanner)
    ensures st.nibbles > 0 && |st.out| < 14 ==>
              Read(":" + s, st) == Read(s, Scanner(st.out + [High(st.word), Low(st.word)], st.zero, Some(s), 0, 0))
    ensures st.nibbles == 0 && st.zero == None ==>
              Read(":" + s, st) == Read(s, Scanner(st.out, Some(|st.out|), Some(s), 0, st.word))
  {
    assert (":" + s)[1..] == s;
  }

  /** The last group of a text without dots completes the address. */
  lemma FinishWords(a: Address, zero: int, max: nat, i: nat, st: Scanner, nibbles: nat)
    requires |a| == 16 && ReadUpTo(a, zero, max, i, st) && Even(i)
    requires zero != NO_RUN ==> zero >= 0 && max >= 2 && ZeroRun(a, zero, max)
    requires (i == 14 && nibbles > 0 && i != zero)
             || (i == 16 && nibbles == 0 && zero != NO_RUN && zero + 2 * max == 16)
    ensures Finish(st.(nibbles := nibbles, word := if i == 14 then WordAt(a, i) else 0)) == Some(a)
  {
    if i == 14 {
      WordBytes(a, 14);
      hide WordAt, High, Low;
      if zero != NO_RUN && zero < i {
        var out := a[..zero] + a[zero + 2 * max..16];
        assert st.out + a[14..16] == out;
        assert out[..zero] + Zeros(2 * max) + out[zero..] == a;
      } else {
        assert st.out + a[14..16] == a;
      }
    } else {
      var out := a[..zero] + a[zero + 2 * max..16] + [0, 0];
      assert out[..zero] + Zeros(2 * max - 2) + out[zero..] == a by {
        RunAtEnd(a, zero, max, out);
      }
    }
  }

  lemma RunAtEnd(a: Address, zero: nat, max: nat, out: seq<byte>)
    requires |a| == 16 && max >= 2 && ZeroRun(a, zero, max) && zero + 2 * max <= 16
    requires out == a[..zero] + a[zero + 2 * max..16] + [0, 0] && zero + 2 * max == 16
    ensures out[..zero] + Zeros(2 * max - 2) + out[zero..] == a
  {
  }

  /** A text without a dotted tail is read back, from any of its words on. */
  lemma {:induction false} ReadWords(a: Address, zero: int, max: nat, i: nat, st: Scanner)
    requires |a| == 16 && ReadUpTo(a, zero, max, i, st) && Even(i)
    requires zero != NO_RUN ==> zero >= 0 && max >= 2 && ZeroRun(a, zero, max)
    requires i == 16 ==> zero != NO_RUN && zero + 2 * max == 16
    ensures Read(WordsText(a, i, 16, zero, max), st) == Some(a)
    decreases 16 + 2 * max - i
  {
    EvenSteps(i, 16, max);
    hide Hex, Even, High, Low, WordAt;
    if i == 16 {
      FinishWords(a, zero, max, i, st, 0);
    } else if i == zero {
      var rest := WordsText(a, i + 2 * max, 16, zero, max);
      ReadColon(rest, st);
      ReadWords(a, zero, max, i + 2 * max, Scanner(st.out, Some(|st.out|), Some(rest), 0, 0));
    } else if i == 14 {
      ReadLast(a, zero, max, st);
    } else {
      var w := WordAt(a, i);
      var rest := WordsText(a, i + 2, 16, zero, max);
      NextWord(a, zero, max, i, st);
      ReadGroup(w, rest, st);
      ReadWords(a, zero, max, i + 2, Scanner(st.out + [High(w), Low(w)], st.zero, Some(rest), 0, 0));
    }
  }

  /** The last word, which has no colon behind it. */
  lemma ReadLast(a: Address, zero: int, max: nat, st: Scanner)
    requires |a| == 16 && ReadUpTo(a, zero, max, 14, st) && zero != 14
    requires zero != NO_RUN ==> zero >= 0 && max >= 2 && ZeroRun(a, zero, max)
    ensures Read(WordsText(a, 14, 16, zero, max), st) == Some(a)
  {
    var w := WordAt(a, 14);
    WordLength(a, 14);
    assert WordsText(a, 14, 16, zero, max) == Hex(w) + "" + WordsText(a, 16, 16, zero, max) == Hex(w) + "";
    hide Hex, WordAt, WordsText;
    ReadHex(w, "", st);
    FinishWords(a, zero, max, 14, st, |Hex(w)|);
  }

  /** A word with a colon behind it. */
  lemma ReadGroup(w: nat, rest: string, st: Scanner)
    requires w < 0x10000 && st.nibbles == 0 && st.word == 0 && |st.out| < 14
    ensures Read(Hex(w) + ":" + rest, st) == Read(rest, Scanner(st.out + [High(w), Low(w)], st.zero, Some(rest), 0, 0))
  {
    HexLength(w);
    hide Hex;
    ReadHex(w, ":" + rest, st);
    assert Hex(w) + ":" + rest == Hex(w) + (":" + rest);
    ReadColon(rest, st.(nibbles := |Hex(w)|, word := w));
  }

  lemma NextWord(a: Address, zero: int, max: nat, i: nat, st: Scanner)
    requires |a| == 16 && ReadUpTo(a, zero, max, i, st) && Even(i) && i < 14 && i != zero
    requires zero != NO_RUN ==> zero >= 0 && max >= 2 && ZeroRun(a, zero, max)
    ensures |st.out| < 14
    ensures ReadUpTo(a, zero, max, i + 2, st.(out := st.out + [High(WordAt(a, i)), Low(WordAt(a, i))]))
  {
    WordBytes(a, i);
    hide WordAt, High, Low;
    if zero == NO_RUN || i < zero {
      assert a[..i] + a[i..i + 2] == a[..i + 2];
    } else {
      assert a[zero + 2 * max..i] + a[i..i + 2] == a[zero + 2 * max..i + 2];
      assert st.out + a[i..i + 2] == a[..zero] + a[zero + 2 * max..i + 2];
    }
  }

  /** The two addresses whose dotted tail reads as the value ngx_inet_addr() reports errors with:
      ::255.255.255.255 and ::ffff:255.255.255.255. */
  predicate Misread(a: Address) {
    |a| == 16 && (forall k :: 0 <= k < 10 ==> a[k] == 0) && (forall k :: 12 <= k < 16 ==> a[k] == 255) &&
    a[10] == a[11] && (a[10] == 0 || a[10] == 255)
  }

  /** Which addresses are printed with a dotted tail of only 255s. */
  lemma MisreadDotted(a: Address, zero: int, max: nat)
    requires |a| == 16 && LeftmostLongest(a, zero, max)
    ensures Misread(a) <==> Dotted(a, zero, max) && a[12] == 255 && a[13] == 255 && a[14] == 255 && a[15] == 255
  {
    if Misread(a) {
      assert ZeroRun(a, 0, 5);
      if a[10] == 0 {
        assert ZeroRun(a, 0, 6);
        assert a[12] != 0 && zero + 2 * max <= 12;
      } else {
        assert a[10] != 0 && zero + 2 * max <= 10;
      }
    }
  }

  /** Which addresses are printed with a dotted tail: those with ten zero bytes and two of 255, and those with
      twelve zero bytes whose tail is not too small.  Of the tails below 65536 only those are dotted whose third
      byte is not 0 and whose last byte is not 1. */
  lemma DottedMeans(a: Address, zero: int, max: nat)
    requires |a| == 16 && LeftmostLongest(a, zero, max)
    ensures Dotted(a, zero, max) <==>
              && (forall k :: 0 <= k < 10 ==> a[k] == 0)
              && ((a[10] == a[11] == 255)
                  || (a[10] == a[11] == 0 && (a[12] != 0 || a[13] != 0 || (a[14] != 0 && a[15] != 1))))
  {
    if Dotted(a, zero, max) {
      assert ZeroRun(a, 0, max);
    }
    if forall k :: 0 <= k < 10 ==> a[k] == 0 {
      assert ZeroRun(a, 0, 5);
      if a[10] == a[11] == 0 {
        assert ZeroRun(a, 0, 6);
        if a[12] == a[13] == 0 {
          assert ZeroRun(a, 0, 7);
          assert a[14] == a[15] == 0 ==> ZeroRun(a, 0, 8);
        }
      }
    }
  }

  /** The dotted form of an address is read back, with those two exceptions. */
  lemma ReadDottedText(a: Address, max: nat, st: Scanner)
    requires |a| == 16 && Dotted(a, 0, max) && ZeroRun(a, 0, max) && max >= 2 && st == Scanner([], None, None, 0, 0)
    ensures Read(WordsText(a, 0, 12, 0, max) + Quad(a), st) ==
            if a[12] == 255 && a[13] == 255 && a[14] == 255 && a[15] == 255 then None else Some(a)
  {
    hide Quad, Read, Hex, WordsText;
    var q := Quad(a);
    if max == 5 {
      ReadDottedWord(a, st);
    } else {
      DottedWords(a, max);
      assert WordsText(a, 0, 12, 0, max) + q == ":" + q;
      ReadColon(q, st);
      var st1 := Scanner([], Some(0), Some(q), 0, 0);
      ReadQuad(a, st1);
      var none: seq<byte> := [];
      assert none[..0] + Zeros(12) + (none + a[12..])[0..] == a;
    }
  }

  /** The words before the dotted part. */
  lemma DottedWords(a: Address, max: nat)
    requires |a| == 16 && Dotted(a, 0, max) && max >= 2
    ensures WordsText(a, 0, 12, 0, max) == if max == 5 then ":" + Hex(WordAt(a, 10)) + ":" else ":"
  {
    hide Hex;
    if max == 5 {
      assert WordsText(a, 12, 12, 0, max) == "";
      assert WordsText(a, 10, 12, 0, max) == Hex(WordAt(a, 10)) + ":" + "";
    } else {
      assert WordsText(a, 2 * max, 12, 0, max) == "";
    }
  }

  lemma ReadDottedWord(a: Address, st: Scanner)
    requires |a| == 16 && Dotted(a, 0, 5) && ZeroRun(a, 0, 5) && st == Scanner([], None, None, 0, 0)
    ensures Read(WordsText(a, 0, 12, 0, 5) + Quad(a), st) ==
            if a[12] == 255 && a[13] == 255 && a[14] == 255 && a[15] == 255 then None else Some(a)
  {
    hide Quad, Read, Hex, WordsText;
    var q, w := Quad(a), WordAt(a, 10);
    var tail := Hex(w) + (":" + q);
    HexLength(w);
    DottedWords(a, 5);
    assert WordsText(a, 0, 12, 0, 5) + q == ":" + tail;
    ReadColon(tail, st);
    var st1 := Scanner([], Some(0), Some(tail), 0, 0);
    ReadHex(w, ":" + q, st1);
    ReadColon(q, st1.(nibbles := |Hex(w)|, word := w));
    DottedBytes(a);
    var st2 := Scanner(a[10..12], Some(0), Some(q), 0, 0);
    ReadQuad(a, st2);
  }

  lemma DottedBytes(a: Address)
    requires |a| == 16 && ZeroRun(a, 0, 5)
    ensures [] + [High(WordAt(a, 10)), Low(WordAt(a, 10))] == a[10..12]
    ensures a[10..12][..0] + Zeros(10) + (a[10..12] + a[12..])[0..] == a
  {
    WordBytes(a, 10);
    hide High, Low;
    assert a[10..12] == [a[10], a[11]];
  }

  /** A printed address is parsed back, but for exactly two of them. */
  lemma RoundTrip(a: Address, zero: int, max: nat)
    requires |a| == 16 && LeftmostLongest(a, zero, max)
    ensures Meaning(Text(a, zero, max)) == if Misread(a) then None else Some(a)
  {
    var st := Scanner([], None, None, 0, 0);
    MisreadDotted(a, zero, max);
    hide Read, Quad, Hex;
    if Dotted(a, zero, max) {
      ReadDottedText(a, max, st);
      var words := WordsText(a, 0, 12, zero, max) + Quad(a);
      assert (":" + words)[1..] == words;
    } else {
      ReadWords(a, zero, max, 0, st);
      var words := WordsText(a, 0, 16, zero, max);
      assert (":" + words)[1..] == words;
      if zero != 0 {
        FirstGroup(a, zero, max);
        assert "" + words == words;
      }
    }
  }

  /** A text that does not start with the run starts with a digit. */
  lemma FirstGroup(a: Address, zero: int, max: nat)
    requires |a| == 16 && zero != 0 && (zero != NO_RUN ==> max >= 2)
    ensures WordsText(a, 0, 16, zero, max) != [] && WordsText(a, 0, 16, zero, max)[0] != ':'
  {
    HexStart(WordAt(a, 0));
    hide Hex;
  }

  lemma {:induction false} HexStart(n: nat)
    ensures Hex(n)[0] != ':'
  {
    if n >= 16 {
      HexStart(n / 16);
    }
  }

  /** The same, of the two functions of the program. */
  method PrintThenParse(a: Address, addr: array<byte>) returns (ok: bool)
    requires |a| == 16 && addr.Length == 16
    modifies addr
    ensures ok <==> !Misread(a)
    ensures ok ==> addr[..] == a
  {
    var text, zero, max := Ntop(a, MAX_TEXT);
    RoundTrip(a, zero, max);
    ok := Parse(text, addr);
  }

  // ----- spellings other than the printed one

  /** The text with all eight groups means the address. */
  lemma FullText(a: Address)
    requires |a| == 16
    ensures Meaning(WordsText(a, 0, 16, NO_RUN, 1)) == Some(a)
  {
    EvenStart();
    var text := WordsText(a, 0, 16, NO_RUN, 1);
    FirstGroup(a, NO_RUN, 1);
    MeaningStart(text);
    assert text[0..] == text;
    hide Read, WordsText, Meaning;
    ReadWords(a, NO_RUN, 1, 0, START);
  }

  /** The text with six groups and a dotted tail means the address, but for the tail of four 255s. */
  lemma FullDotted(a: Address)
    requires |a| == 16
    ensures Meaning(WordsText(a, 0, 12, NO_RUN, 1) + Quad(a)) ==
            if a[12] == 255 && a[13] == 255 && a[14] == 255 && a[15] == 255 then None else Some(a)
  {
    var text := WordsText(a, 0, 12, NO_RUN, 1) + Quad(a);
    HexStart(WordAt(a, 0));
    assert WordsText(a, 0, 12, NO_RUN, 1) == Hex(WordAt(a, 0)) + ":" + WordsText(a, 2, 12, NO_RUN, 1);
    assert text[0] == Hex(WordAt(a, 0))[0];
    MeaningStart(text);
    assert text[0..] == text;
    hide Read, WordsText, Meaning, Quad, Hex, WordAt;
    EvenStart();
    ReadGroupsThenQuad(a, 0, START);
  }

  lemma {:induction false} ReadGroupsThenQuad(a: Address, i: nat, st: Scanner)
    requires |a| == 16 && Even(i) && i <= 12 && st.out == a[..i] && st.zero == None && st.nibbles == 0 && st.word == 0
    requires i > 0 ==> st.group == Some(WordsText(a, i, 12, NO_RUN, 1) + Quad(a))
    ensures Read(WordsText(a, i, 12, NO_RUN, 1) + Quad(a), st) ==
            if a[12] == 255 && a[13] == 255 && a[14] == 255 && a[15] == 255 then None else Some(a)
    decreases 12 - i
  {
    hide Read, Quad, Hex, High, Low;
    EvenSteps(i, 12, 0);
    if i == 12 {
      assert WordsText(a, 12, 12, NO_RUN, 1) + Quad(a) == Quad(a);
      ReadQuadFull(a, st);
    } else {
      var w := WordAt(a, i);
      var rest := WordsText(a, i + 2, 12, NO_RUN, 1) + Quad(a);
      assert WordsText(a, i, 12, NO_RUN, 1) + Quad(a) == Hex(w) + ":" + rest;
      ReadGroup(w, rest, st);
      WordBytes(a, i);
      hide WordAt, Even, WordsText;
      PrefixWord(a, i);
      ReadGroupsThenQuad(a, i + 2, Scanner(st.out + [High(w), Low(w)], None, Some(rest), 0, 0));
    }
  }

  lemma PrefixWord(a: Address, i: nat)
    requires i + 2 <= |a|
    ensures a[..i] + a[i..i + 2] == a[..i + 2]
  {
  }

  lemma ReadQuadFull(a: Address, st: Scanner)
    requires |a| == 16 && st.nibbles == 0 && st.group == Some(Quad(a)) && st.zero == None && st.out == a[..12]
    ensures Read(Quad(a), st) ==
            if a[12] == 255 && a[13] == 255 && a[14] == 255 && a[15] == 255 then None else Some(a)
  {
    var rest := Dec(a[13] as nat) + "." + Dec(a[14] as nat) + "." + Dec(a[15] as nat);
    assert Quad(a) == Dec(a[12] as nat) + ("." + rest);
    DecLength(a[12] as nat);
    var w := ReadDec(a[12] as nat, "." + rest, st);
    QuadMeans(a);
    hide Dec, Inet4, Quad;
    QuadBytes(a);
    var st' := st.(nibbles := |Dec(a[12] as nat)|, word := w);
    assert Read("." + rest, st') == ReadDotted(st');
    var v := QuadValue(a);
    assert a[..12] + [High(v / 0x10000), Low(v / 0x10000)] + [High(v % 0x10000), Low(v % 0x10000)] == a;
    hide High, Low, QuadValue;
  }

  // ----- texts without dots that mean nothing

  predicate IsHex(c: char) { HexValue(c).Some? }

  /** A text without dots that means something consists of hexadecimal digits and colons, no five digits in a row, and
      has "::" in one place at most. */
  lemma PlainText(text: string, i: nat, j: nat)
    requires Meaning(text).Some? && forall k :: 0 <= k < |text| ==> text[k] != '.'
    ensures i < |text| ==> text[i] == ':' || IsHex(text[i])
    ensures i + 5 <= |text| ==> exists k :: i <= k < i + 5 && !IsHex(text[k])
    ensures i < j && j + 2 <= |text| ==> text[i..i + 2] != "::" || text[j..j + 2] != "::"
  {
    hide Meaning, IsHex;
    if i < |text| {
      PlainLetter(text, i);
    }
    if i + 5 <= |text| {
      PlainFive(text, i);
    }
    if i < j && j + 2 <= |text| && text[i..i + 2] == "::" && text[j..j + 2] == "::" {
      assert text[i] == text[i..i + 2][0] && text[i + 1] == text[i..i + 2][1];
      assert text[j] == text[j..j + 2][0] && text[j + 1] == text[j..j + 2][1];
      PlainGaps(text, i, j);
      assert false;
    }
  }

  const START := Scanner([], None, None, 0, 0)

  lemma PlainLetter(text: string, i: nat)
    requires Meaning(text).Some? && i < |text| && forall k :: 0 <= k < |text| ==> text[k] != '.'
    ensures text[i] == ':' || IsHex(text[i])
  {
    MeaningStart(text);
    hide Read, IsHex, Meaning;
    var skip := if text[0] == ':' then 1 else 0;
    if skip <= i {
      ReadLetter(text[skip..], START, i - skip);
    }
  }

  lemma PlainFive(text: string, i: nat)
    requires Meaning(text).Some? && i + 5 <= |text| && forall k :: 0 <= k < |text| ==> text[k] != '.'
    ensures exists k :: i <= k < i + 5 && !IsHex(text[k])
  {
    MeaningStart(text);
    ColonNotHex();
    hide Read, IsHex, Meaning;
    var skip := if text[0] == ':' then 1 else 0;
    if skip <= i {
      ReadFive(text[skip..], START, i - skip);
      var k :| i - skip <= k < i - skip + 5 && !IsHex(text[skip..][k]);
      assert text[skip..][k] == text[skip + k];
    }
  }

  lemma PlainGaps(text: string, i: nat, j: nat)
    requires i < j && j + 2 <= |text| && text[i] == text[i + 1] == text[j] == text[j + 1] == ':'
    requires forall k :: 0 <= k < |text| ==> text[k] != '.'
    ensures Meaning(text).None?
  {
    MeaningStart(text);
    hide Read, IsHex, Meaning;
    var skip := if text[0] == ':' then 1 else 0;
    if skip <= i {
      ReadTwoGaps(text[skip..], START, i - skip, j - skip);
    } else {
      ReadColonFirst(text[skip..], START, j - skip);
    }
  }

  lemma {:induction false} ReadLetter(s: string, st: Scanner, i: nat)
    requires Read(s, st).Some? && i < |s| && forall k :: 0 <= k < |s| ==> s[k] != '.'
    ensures s[i] == ':' || IsHex(s[i])
    decreases |s|
  {
    if i > 0 {
      var st' := NextScanner(s, st);
      hide Read;
      ReadLetter(s[1..], st', i - 1);
    }
  }

  /** The scanner after the first character of a text that means something. */
  lemma NextScanner(s: string, st: Scanner) returns (st': Scanner)
    requires Read(s, st).Some? && s != [] && s[0] != '.'
    ensures Read(s[1..], st') == Read(s, st)
    ensures if s[0] == ':' then st'.nibbles == 0 && st'.zero.Some? == (st.zero.Some? || st.nibbles == 0)
                                && (st.nibbles > 0 || st.zero.None?)
            else IsHex(s[0]) && st'.nibbles == st.nibbles + 1 <= 4 && st'.zero == st.zero
  {
    hide HexValue, High, Low;
    if s[0] == ':' {
      st' := if st.nibbles > 0 then Scanner(st.out + [High(st.word), Low(st.word)], st.zero, Some(s[1..]), 0, 0)
             else Scanner(st.out, Some(|st.out|), Some(s[1..]), 0, st.word);
    } else {
      st' := st.(nibbles := st.nibbles + 1, word := st.word * 16 + HexValue(s[0]).value);
    }
  }

  lemma {:induction false} ReadFive(s: string, st: Scanner, i: nat)
    requires Read(s, st).Some? && i + 5 <= |s| && forall k :: 0 <= k < |s| ==> s[k] != '.'
    ensures exists k :: i <= k < i + 5 && !IsHex(s[k])
    decreases |s|
  {
    if i > 0 {
      var st' := NextScanner(s, st);
      hide Read, HexValue;
      ReadFive(s[1..], st', i - 1);
      var k :| i - 1 <= k < i + 4 && !IsHex(s[1..][k]);
      assert s[k + 1] == s[1..][k];
    } else if forall k :: 0 <= k < 5 ==> IsHex(s[k]) {
      ColonNotHex();
      hide Read, IsHex;
      var st1 := NextScanner(s, st);
      var st2 := NextScanner(s[1..], st1);
      var st3 := NextScanner(s[2..], st2);
      var st4 := NextScanner(s[3..], st3);
      var st5 := NextScanner(s[4..], st4);
    }
  }

  lemma ColonNotHex()
    ensures !IsHex(':') && !IsHex('.')
  {
  }

  /** After "::" a second one is not read. */
  lemma {:induction false} ReadGap(s: string, st: Scanner, j: nat)
    requires st.zero.Some? && j + 2 <= |s| && s[j] == s[j + 1] == ':' && forall k :: 0 <= k < |s| ==> s[k] != '.'
    ensures Read(s, st).None?
    decreases |s|
  {
    if Read(s, st).Some? {
      var st' := NextScanner(s, st);
      hide Read, IsHex;
      if j > 0 {
        ReadGap(s[1..], st', j - 1);
      } else {
        var st2 := NextScanner(s[1..], st');
      }
    }
  }

  /** A text that starts with one of two "::", the first colon of which has been skipped. */
  lemma ReadColonFirst(s: string, st: Scanner, j: nat)
    requires st.nibbles == 0 && s != [] && s[0] == ':' && j + 2 <= |s| && s[j] == s[j + 1] == ':'
    requires forall k :: 0 <= k < |s| ==> s[k] != '.'
    ensures Read(s, st).None?
  {
    if Read(s, st).Some? {
      var st' := NextScanner(s, st);
      hide Read;
      if j > 0 {
        ReadGap(s[1..], st', j - 1);
      } else {
        var st2 := NextScanner(s[1..], st');
      }
    }
  }

  lemma ReadThird(s: string, st: Scanner)
    requires st.nibbles == 0 && st.zero.Some? && s != [] && s[0] == ':'
    ensures Read(s, st).None?
  {
  }

  lemma {:induction false} ReadTwoGaps(s: string, st: Scanner, i: nat, j: nat)
    requires i < j && j + 2 <= |s| && s[i] == s[i + 1] == s[j] == s[j + 1] == ':'
    requires forall k :: 0 <= k < |s| ==> s[k] != '.'
    ensures Read(s, st).None?
    decreases |s|
  {
    hide Read;
    if Read(s, st).Some? {
      var st' := NextScanner(s, st);
      if i > 0 {
        ReadTwoGaps(s[1..], st', i - 1, j - 1);
      } else {
        var st2 := NextScanner(s[1..], st');
        if j == 1 {
          ReadThird(s[1..][1..], st2);
        } else {
          ReadGap(s[2..], st2, j - 2);
        }
      }
    }
  }

  // ----- letters of either case

  predicate SameLetter(c: char, d: char) {
    || c == d
    || ('a' <= c <= 'z' && d as nat == c as nat - 32)
    || ('a' <= d <= 'z' && c as nat == d as nat - 32)
  }

  ghost predicate SameLetters(s: string, t: string) {
    |s| == |t| && forall i :: 0 <= i < |s| ==> SameLetter(s[i], t[i])
  }

  /** Texts that differ in the case of letters only mean the same. */
  lemma CaseIgnored(s: string, t: string)
    requires SameLetters(s, t)
    ensures Meaning(s) == Meaning(t)
  {
    if s != [] {
      assert SameLetters(s[1..], t[1..]);
      var st := Scanner([], None, None, 0, 0);
      ReadCase(s[1..], t[1..], st, st);
      ReadCase(s, t, st, st);
      assert SameLetter(s[0], t[0]);
    }
  }

  lemma {:induction false} ReadCase(s: string, t: string, st: Scanner, st': Scanner)
    requires SameLetters(s, t) && st' == st.(group := st'.group) && st.group.Some? == st'.group.Some?
    requires st.group.Some? ==> SameLetters(st.group.value, st'.group.value)
    ensures Read(s, st) == Read(t, st')
    decreases 2 * |s|
  {
    if s == [] {
      FinishCase(st, st');
    } else {
      assert SameLetter(s[0], t[0]) && SameLetters(s[1..], t[1..]);
      LetterCase(s[0], t[0]);
      hide SameLetters, SameLetter, Inet4, ReadDotted, High, Low, Finish, HexValue;
      if s[0] == ':' {
        assert [':'] + s[1..] == s && [':'] + t[1..] == t;
        ColonCase(s[1..], t[1..], st, st');
      } else if s[0] == '.' && st.nibbles > 0 {
        DottedCase(st, st');
      } else if st.nibbles + 1 <= 4 {
        var v := HexValue(s[0]);
        if v.Some? {
          var word := st.word * 16 + v.value;
          ReadCase(s[1..], t[1..], st.(nibbles := st.nibbles + 1, word := word),
                   st'.(nibbles := st.nibbles + 1, word := word));
        }
      }
    }
  }

  lemma FinishCase(st: Scanner, st': Scanner)
    requires st' == st.(group := st'.group)
    ensures Finish(st) == Finish(st')
  {
  }

  lemma ColonCase(s: string, t: string, st: Scanner, st': Scanner)
    requires SameLetters(s, t) && st' == st.(group := st'.group)
    ensures Read([':'] + s, st) == Read([':'] + t, st')
    decreases 2 * |s| + 1
  {
    hide SameLetters, Inet4, High, Low, Finish, HexValue;
    assert ([':'] + s)[1..] == s && ([':'] + t)[1..] == t;
    if st.nibbles > 0 {
      var out := st.out + [High(st.word), Low(st.word)];
      if |out| < 16 {
        ReadCase(s, t, Scanner(out, st.zero, Some(s), 0, 0), Scanner(out, st.zero, Some(t), 0, 0));
      }
    } else if st.zero.None? {
      ReadCase(s, t, Scanner(st.out, Some(|st.out|), Some(s), 0, st.word),
               Scanner(st.out, Some(|st.out|), Some(t), 0, st.word));
    }
  }

  lemma DottedCase(st: Scanner, st': Scanner)
    requires st' == st.(group := st'.group) && st.group.Some? == st'.group.Some?
    requires st.group.Some? ==> SameLetters(st.group.value, st'.group.value)
    ensures ReadDotted(st) == ReadDotted(st')
  {
    hide Inet4, High, Low;
    if st.group.Some? {
      Inet4Case(st.group.value, st'.group.value, 0, 0, 0);
    }
  }

  lemma {:induction false} Inet4Case(s: string, t: string, addr: nat, octet: nat, n: nat)
    requires SameLetters(s, t)
    ensures Inet4(s, addr, octet, n) == Inet4(t, addr, octet, n)
    decreases |s|
  {
    if s != [] {
      assert SameLetter(s[0], t[0]) && SameLetters(s[1..], t[1..]);
      LetterCase(s[0], t[0]);
      if IsDigit(s[0]) {
        var o := octet * 10 + (s[0] as nat - '0' as nat);
        if o <= 255 {
          Inet4Case(s[1..], t[1..], addr, o, n);
        }
      } else if s[0] == '.' {
        Inet4Case(s[1..], t[1..], (addr * 256 + octet) % 0x1_0000_0000, 0, n + 1);
      }
    }
  }

  /** What is not a letter is the same in both. */
  lemma LetterCase(c: char, d: char)
    requires SameLetter(c, d)
    ensures HexValue(c) == HexValue(d)
    ensures c == d || (!IsDigit(c) && !IsDigit(d) && c != '.' && d != '.' && c != ':' && d != ':')
  {
  }
}
