/**
 The longest common prefix of some strings (app/src/prefix.rs).

 A string is a sequence of Unicode scalar values; the program works on its UTF-8 bytes, encoded as in
 section 3 of RFC 3629, and takes a minimum of byte lengths. The lemmas show that this minimum is a
 character boundary and what prefix it cuts.
 */
module Prefixes {
  import opened Wrappers

  type Byte = b: int | 0 <= b < 256

  function LenUtf8(c: char): nat {
    if c as int < 0x80 then 1
    else if c as int < 0x800 then 2
    else if c as int < 0x10000 then 3
    else 4
  }

  function EncodeChar(c: char): (bytes: seq<Byte>)
    ensures |bytes| == LenUtf8(c)
  {
    var n := c as int;
    if n < 0x80 then [n]
    else if n < 0x800 then [0xC0 + n / 64, 0x80 + n % 64]
    else if n < 0x10000 then [0xE0 + n / 4096, 0x80 + n / 64 % 64, 0x80 + n % 64]
    else [0xF0 + n / 262144, 0x80 + n / 4096 % 64, 0x80 + n / 64 % 64, 0x80 + n % 64]
  }

  function Bytes(s: string): seq<Byte> {
    if s == [] then [] else EncodeChar(s[0]) + Bytes(s[1..])
  }

  predicate IsContinuation(b: Byte) {
    0x80 <= b < 0xC0
  }

  /** Where a string may be sliced without a panic. */
  predicate IsCharBoundary(bytes: seq<Byte>, n: nat) {
    n == 0 || n == |bytes| || (n < |bytes| && !IsContinuation(bytes[n]))
  }

  /** The characters of a slice that begins at 0. */
  function Slice(s: string, n: nat): (t: string)
    requires IsCharBoundary(Bytes(s), n)
    ensures t <= s && |Bytes(t)| == n
  {
    if n == 0 then []
    else
      BoundaryBelow(s, n);
      [s[0]] + Slice(s[1..], n - LenUtf8(s[0]))
  }

  /** The bytes of the leading characters that two strings share. */
  function SharedBytes(s: string, first: string): nat {
    if s == [] || first == [] || s[0] != first[0] then 0
    else LenUtf8(s[0]) + SharedBytes(s[1..], first[1..])
  }

  ghost predicate IsCommonPrefix(p: string, strings: seq<string>) {
    forall k :: 0 <= k < |strings| ==> p <= strings[k]
  }

  ghost predicate IsLongestCommonPrefix(p: string, strings: seq<string>) {
    IsCommonPrefix(p, strings) && forall q :: IsCommonPrefix(q, strings) ==> q <= p
  }

  /** The answer is the longest common prefix, and none when that is empty or there are no strings. */
  ghost predicate Answers(strings: seq<string>, r: Option<string>) {
    match r
    case Some(p) => p != [] && strings != [] && IsLongestCommonPrefix(p, strings)
    case None => strings == [] || IsLongestCommonPrefix([], strings)
  }

  method LongestCommonPrefix(strings: seq<string>) returns (r: Option<string>)
    ensures Answers(strings, r)
  {
    if strings == [] {
      return None;
    }
    var first := strings[0];
    var len := |Bytes(first)|;
    ghost var p := first;
    for k := 1 to |strings|
      invariant p <= first && len == |Bytes(p)|
      invariant IsLongestCommonPrefix(p, strings[..k])
    {
      var shared := SharedBytes(strings[k], first);
      var q := Shared(strings[k], first);
      SharedBytesAreTheShared(strings[k], first);
      BytesGrow(p, q, first);
      OneMoreString(p, q, first, strings[..k], strings[k]);
      assert strings[..k] + [strings[k]] == strings[..k + 1];
      p := if |q| < |p| then q else p;
      len := if shared < len then shared else len;
    }
    assert strings[..|strings|] == strings;
    BoundaryOfAPrefix(first, p);
    if len == 0 {
      assert p == [];
      return None;
    }
    BytesGrow(p, Slice(first, len), first);
    return Some(Slice(first, len));
  }

  // Characters in bytes.

  lemma LeadingByte(c: char)
    ensures !IsContinuation(EncodeChar(c)[0])
    ensures forall k :: 0 < k < LenUtf8(c) ==> IsContinuation(EncodeChar(c)[k])
  {
  }

  lemma BytesOf(c: char, s: string)
    ensures Bytes([c] + s) == EncodeChar(c) + Bytes(s)
  {
    assert ([c] + s)[1..] == s;
  }

  /** A boundary past 0 is past the first character and a boundary of the rest. */
  lemma BoundaryBelow(s: string, n: nat)
    requires 0 < n && IsCharBoundary(Bytes(s), n)
    ensures s != [] && LenUtf8(s[0]) <= n && IsCharBoundary(Bytes(s[1..]), n - LenUtf8(s[0]))
  {
    LeadingByte(s[0]);
  }

  lemma {:induction false} BytesAppend(s: string, t: string)
    ensures Bytes(s + t) == Bytes(s) + Bytes(t)
  {
    if s == [] {
      assert s + t == t;
    } else {
      assert (s + t)[1..] == s[1..] + t;
      BytesAppend(s[1..], t);
    }
  }

  lemma EncodingIsPositive(s: string)
    ensures |Bytes(s)| == 0 <==> s == []
  {
  }

  /** The cut after any prefix is a boundary. */
  lemma BoundaryOfAPrefix(s: string, p: string)
    requires p <= s
    ensures IsCharBoundary(Bytes(s), |Bytes(p)|)
  {
    var rest := s[|p|..];
    assert s == p + rest;
    BytesAppend(p, rest);
    if rest != [] {
      LeadingByte(rest[0]);
      assert Bytes(s)[|Bytes(p)|] == Bytes(rest)[0];
    }
  }

  /** The boundaries of a string are exactly the cuts between its characters. */
  lemma BoundariesAreTheCuts(s: string, n: nat)
    ensures IsCharBoundary(Bytes(s), n) <==> exists k: nat :: k <= |s| && n == |Bytes(s[..k])|
  {
    if IsCharBoundary(Bytes(s), n) {
      var p := Slice(s, n);
      assert p == s[..|p|];
    }
    if k: nat :| k <= |s| && n == |Bytes(s[..k])| {
      BoundaryOfAPrefix(s, s[..k]);
    }
  }

  lemma LongerInBytes(p: string, q: string)
    requires p <= q
    ensures |Bytes(p)| <= |Bytes(q)|
    ensures |Bytes(p)| == |Bytes(q)| ==> p == q
  {
    hide Bytes;
    var more := q[|p|..];
    assert q == p + more;
    BytesAppend(p, more);
    EncodingIsPositive(more);
  }

  /** Of two prefixes of one string, the one with fewer bytes is the shorter one. */
  lemma BytesGrow(p: string, q: string, s: string)
    requires p <= s && q <= s
    ensures |Bytes(p)| <= |Bytes(q)| <==> |p| <= |q|
    ensures |Bytes(p)| == |Bytes(q)| ==> p == q
  {
    hide Bytes;
    if |p| <= |q| {
      LongerInBytes(p, q);
    } else {
      LongerInBytes(q, p);
    }
  }

  // The minimum.

  ghost function Shared(s: string, first: string): (p: string)
    ensures p <= s && p <= first
  {
    if s == [] || first == [] || s[0] != first[0] then []
    else [s[0]] + Shared(s[1..], first[1..])
  }

  lemma {:induction false} SharedBytesAreTheShared(s: string, first: string)
    ensures SharedBytes(s, first) == |Bytes(Shared(s, first))|
  {
    if s != [] && first != [] && s[0] == first[0] {
      SharedBytesAreTheShared(s[1..], first[1..]);
      BytesOf(s[0], Shared(s[1..], first[1..]));
    }
  }

  lemma {:induction false} SharedIsLongest(s: string, first: string, q: string)
    requires q <= s && q <= first
    ensures q <= Shared(s, first)
  {
    if q != [] {
      assert q[1..] <= s[1..] && q[1..] <= first[1..];
      SharedIsLongest(s[1..], first[1..], q[1..]);
      assert q == [q[0]] + q[1..];
    }
  }

  lemma OneMoreString(p: string, q: string, first: string, strings: seq<string>, s: string)
    requires strings != [] && strings[0] == first && IsLongestCommonPrefix(p, strings)
    requires q == Shared(s, first)
    ensures IsLongestCommonPrefix(if |q| < |p| then q else p, strings + [s])
  {
    var r := if |q| < |p| then q else p;
    var all := strings + [s];
    assert p <= strings[0];
    forall k | 0 <= k < |all|
      ensures r <= all[k]
    {
      if k < |strings| {
        assert r <= p <= strings[k];
      } else {
        assert r <= q;
      }
    }
    forall t | IsCommonPrefix(t, all)
      ensures t <= r
    {
      assert forall k :: 0 <= k < |strings| ==> all[k] == strings[k];
      assert IsCommonPrefix(t, strings);
      assert t <= all[0] && t <= all[|strings|];
      SharedIsLongest(s, first, t);
    }
  }

  // What the answer means.

  /** The order of the strings does not matter. */
  lemma OrderDoesNotMatter(a: seq<string>, b: seq<string>, r: Option<string>, s: Option<string>)
    requires Answers(a, r) && Answers(b, s)
    requires multiset(a) == multiset(b)
    ensures r == s
  {
    assert |a| == |multiset(a)| == |multiset(b)| == |b|;
    forall p
      ensures IsCommonPrefix(p, a) <==> IsCommonPrefix(p, b)
    {
      if IsCommonPrefix(p, a) {
        SameStrings(p, a, b);
      }
      if IsCommonPrefix(p, b) {
        SameStrings(p, b, a);
      }
    }
    var p, q := if r.Some? then r.value else [], if s.Some? then s.value else [];
    if a != [] {
      assert IsCommonPrefix(p, b) && IsCommonPrefix(q, a);
      assert p <= q && q <= p;
      assert p == q;
    }
  }

  lemma SameStrings(p: string, a: seq<string>, b: seq<string>)
    requires multiset(a) == multiset(b) && IsCommonPrefix(p, a)
    ensures IsCommonPrefix(p, b)
  {
    forall k | 0 <= k < |b|
      ensures p <= b[k]
    {
      assert b[k] in multiset(a);
      assert b[k] in a;
    }
  }

  /** The first byte of a character says how many there are. */
  ghost function LengthByLead(lead: Byte): nat {
    if lead < 0x80 then 1 else if lead < 0xE0 then 2 else if lead < 0xF0 then 3 else 4
  }

  lemma LeadSaysTheLength(c: char)
    ensures LengthByLead(EncodeChar(c)[0]) == LenUtf8(c)
  {
  }

  /** No character's bytes begin another's. */
  lemma EncodingIsAPrefixCode(c: char, d: char, rest: seq<Byte>)
    requires EncodeChar(c) <= EncodeChar(d) + rest
    ensures c == d
  {
    hide EncodeChar, LenUtf8, Decode, LengthByLead;
    var e, f := EncodeChar(c), EncodeChar(d);
    LeadSaysTheLength(c);
    LeadSaysTheLength(d);
    PositiveLength(d);
    PositiveLength(c);
    assert e[0] == (f + rest)[0] == f[0];
    assert e == (f + rest)[..|f|] == f;
    DecodesBack(c);
    DecodesBack(d);
  }

  lemma PositiveLength(c: char)
    ensures 1 <= LenUtf8(c) <= 4
  {
  }

  ghost function Decode(bytes: seq<Byte>): int
    requires 1 <= |bytes| <= 4
  {
    var b := seq(|bytes|, k requires 0 <= k < |bytes| => bytes[k] as int);
    if |b| == 1 then b[0]
    else if |b| == 2 then (b[0] - 0xC0) * 64 + (b[1] - 0x80)
    else if |b| == 3 then (b[0] - 0xE0) * 4096 + (b[1] - 0x80) * 64 + (b[2] - 0x80)
    else (b[0] - 0xF0) * 262144 + (b[1] - 0x80) * 4096 + (b[2] - 0x80) * 64 + (b[3] - 0x80)
  }

  lemma SixBitDigits(n: nat)
    ensures n == n / 64 * 64 + n % 64
    ensures n / 64 == n / 4096 * 64 + n / 64 % 64
    ensures n / 4096 == n / 262144 * 64 + n / 4096 % 64
  {
  }

  lemma DecodesBack(c: char)
    ensures Decode(EncodeChar(c)) == c as int
  {
    var n := c as int;
    SixBitDigits(n);
    if 0x800 <= n {
      assert n == n / 4096 * 4096 + n / 64 % 64 * 64 + n % 64;
    }
  }

  ghost predicate IsTail(bytes: seq<Byte>) {
    forall k :: 0 <= k < |bytes| ==> 0x80 <= bytes[k] <= 0xBF
  }

  /** The byte sequences of one character, as in the syntax of section 4 of RFC 3629. */
  ghost predicate IsWellFormed(b: seq<Byte>) {
    || (|b| == 1 && b[0] <= 0x7F)
    || (|b| == 2 && 0xC2 <= b[0] <= 0xDF && IsTail(b[1..]))
    || (|b| == 3 && b[0] == 0xE0 && 0xA0 <= b[1] <= 0xBF && IsTail(b[2..]))
    || (|b| == 3 && (0xE1 <= b[0] <= 0xEC || 0xEE <= b[0] <= 0xEF) && IsTail(b[1..]))
    || (|b| == 3 && b[0] == 0xED && 0x80 <= b[1] <= 0x9F && IsTail(b[2..]))
    || (|b| == 4 && b[0] == 0xF0 && 0x90 <= b[1] <= 0xBF && IsTail(b[2..]))
    || (|b| == 4 && 0xF1 <= b[0] <= 0xF3 && IsTail(b[1..]))
    || (|b| == 4 && b[0] == 0xF4 && 0x80 <= b[1] <= 0x8F && IsTail(b[2..]))
  }

  /** Every character is encoded in that syntax, which rules out longer forms and surrogates. */
  lemma EncodingIsWellFormed(c: char)
    ensures IsWellFormed(EncodeChar(c))
  {
    hide IsTail;
    var n, b := c as int, EncodeChar(c);
    SixBitDigits(n);
    TailOf(b);
  }

  lemma TailOf(b: seq<Byte>)
    ensures (forall k :: 0 < k < |b| ==> 0x80 <= b[k] < 0xC0) ==>
              (1 <= |b| ==> IsTail(b[1..])) && (2 <= |b| ==> IsTail(b[2..]))
  {
  }

  lemma {:induction false} BytePrefixIsPrefix(p: string, s: string)
    requires Bytes(p) <= Bytes(s)
    ensures p <= s
  {
    if p != [] {
      assert s != [];
      var e, f := EncodeChar(p[0]), EncodeChar(s[0]);
      assert e <= f + Bytes(s[1..]) by {
        assert e == Bytes(p)[..|e|] == Bytes(s)[..|e|];
      }
      EncodingIsAPrefixCode(p[0], s[0], Bytes(s[1..]));
      assert Bytes(p[1..]) == Bytes(p)[|e|..] && Bytes(s[1..]) == Bytes(s)[|e|..];
      BytePrefixIsPrefix(p[1..], s[1..]);
      assert p == [p[0]] + p[1..] && s == [s[0]] + s[1..];
    }
  }

  ghost predicate IsCommonBytes(bytes: seq<Byte>, strings: seq<string>) {
    forall k :: 0 <= k < |strings| ==> bytes <= Bytes(strings[k])
  }

  ghost predicate IsLongestCommonBytes(bytes: seq<Byte>, strings: seq<string>) {
    IsCommonBytes(bytes, strings) && forall b :: IsCommonBytes(b, strings) ==> b <= bytes
  }

  lemma PrefixInBytes(p: string, s: string)
    requires p <= s
    ensures Bytes(p) <= Bytes(s)
  {
    assert s == p + s[|p|..];
    BytesAppend(p, s[|p|..]);
  }

  /** No boundary of the first string lies past the common prefix and within the common bytes. */
  lemma NoFurtherBoundary(p: string, bytes: seq<Byte>, strings: seq<string>, n: nat)
    requires strings != [] && IsLongestCommonPrefix(p, strings) && IsCommonBytes(bytes, strings)
    requires n <= |bytes| && IsCharBoundary(Bytes(strings[0]), n)
    ensures n <= |Bytes(p)|
  {
    var first := strings[0];
    var q := Slice(first, n);
    hide Bytes, Slice;
    PrefixInBytes(q, first);
    assert bytes <= Bytes(first);
    assert Bytes(q) == bytes[..n];
    forall k | 0 <= k < |strings|
      ensures q <= strings[k]
    {
      assert bytes <= Bytes(strings[k]);
      BytePrefixIsPrefix(q, strings[k]);
    }
    assert IsCommonPrefix(q, strings);
    assert q <= p <= first;
    BytesGrow(q, p, first);
  }

  /** The answer is the longest common byte prefix cut back to a character boundary. */
  lemma LongestPrefixIsTheBytesCutBack(p: string, bytes: seq<Byte>, strings: seq<string>)
    requires strings != [] && IsLongestCommonPrefix(p, strings) && IsLongestCommonBytes(bytes, strings)
    ensures Bytes(p) <= bytes
    ensures IsCharBoundary(Bytes(strings[0]), |Bytes(p)|)
    ensures forall n :: |Bytes(p)| < n <= |bytes| ==> !IsCharBoundary(Bytes(strings[0]), n)
  {
    hide Bytes, IsCharBoundary;
    forall k | 0 <= k < |strings|
      ensures Bytes(p) <= Bytes(strings[k])
    {
      PrefixInBytes(p, strings[k]);
    }
    assert IsCommonBytes(Bytes(p), strings);
    BoundaryOfAPrefix(strings[0], p);
    forall n | |Bytes(p)| < n <= |bytes|
      ensures !IsCharBoundary(Bytes(strings[0]), n)
    {
      if IsCharBoundary(Bytes(strings[0]), n) {
        NoFurtherBoundary(p, bytes, strings, n);
      }
    }
  }
}
