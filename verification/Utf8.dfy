/**
 Cutting a string to a byte budget on a code-point boundary.  Well-formed UTF-8 is the grammar
 of section 4 of RFC 3629.
 */
module Utf8 {
  import opened Wrappers

  // A byte whose top bits are 10.
  predicate IsContinuation(b: bv8) {
    b & 0xC0 == 0x80
  }

  predicate InRange(b: bv8, lo: bv8, hi: bv8) {
    lo <= b <= hi
  }

  predicate IsTail(b: bv8) {
    InRange(b, 0x80, 0xBF)
  }

  lemma TailIsContinuation(b: bv8)
    ensures IsTail(b) <==> IsContinuation(b)
  {
  }

  // Whether the first byte opens a sequence of this length, and allows this second byte.
  predicate Opens(n: nat, first: bv8, second: bv8) {
    match n
    case 2 => InRange(first, 0xC2, 0xDF) && IsTail(second)
    case 3 =>
      || (first == 0xE0 && InRange(second, 0xA0, 0xBF))
      || (InRange(first, 0xE1, 0xEC) && IsTail(second))
      || (first == 0xED && InRange(second, 0x80, 0x9F))
      || (InRange(first, 0xEE, 0xEF) && IsTail(second))
    case 4 =>
      || (first == 0xF0 && InRange(second, 0x90, 0xBF))
      || (InRange(first, 0xF1, 0xF3) && IsTail(second))
      || (first == 0xF4 && InRange(second, 0x80, 0x8F))
    case _ => false
  }

  // s starts with one well-formed character of n bytes.
  predicate StartsWithChar(s: Bytes, n: nat) {
    && 1 <= n <= 4 && n <= |s|
    && if n == 1 then s[0] <= 0x7F
       else
         && Opens(n, s[0], s[1])
         && (n >= 3 ==> IsTail(s[2]))
         && (n >= 4 ==> IsTail(s[3]))
  }

  function CharLength(s: Bytes): (n: nat)
    ensures n > 0 ==> StartsWithChar(s, n)
    ensures n == 0 ==> forall k :: !StartsWithChar(s, k)
  {
    if StartsWithChar(s, 1) then 1
    else if StartsWithChar(s, 2) then 2
    else if StartsWithChar(s, 3) then 3
    else if StartsWithChar(s, 4) then 4
    else 0
  }

  predicate IsValid(s: Bytes) {
    s == [] || (CharLength(s) > 0 && IsValid(s[CharLength(s)..]))
  }

  lemma SecondIsTail(n: nat, first: bv8, second: bv8)
    requires Opens(n, first, second)
    ensures IsTail(second) && first > 0xBF
  {
  }

  lemma OneLength(first: bv8, second: bv8, m: nat, n: nat)
    requires Opens(m, first, second) && (Opens(n, first, second) || exists b :: Opens(n, first, b))
    ensures m == n
  {
  }

  // A character is one lead byte and continuation bytes; its length is told by the bytes it has.
  lemma CharShape(s: Bytes, n: nat)
    requires StartsWithChar(s, n)
    ensures !IsContinuation(s[0])
    ensures forall k :: 1 <= k < n ==> IsContinuation(s[k])
    ensures CharLength(s) == n
  {
    TailIsContinuation(s[0]);
    forall k | 1 <= k < n
      ensures IsContinuation(s[k])
    {
      SecondIsTail(n, s[0], s[1]);
      TailIsContinuation(s[k]);
    }
    if n > 1 {
      SecondIsTail(n, s[0], s[1]);
      var m := CharLength(s);
      OneLength(s[0], s[1], n, m);
    }
  }

  lemma PrefixChar(s: Bytes, t: Bytes, m: nat)
    requires t <= s && StartsWithChar(t, m)
    ensures CharLength(s) == CharLength(t) == m
  {
    assert StartsWithChar(s, m);
    CharShape(s, m);
    CharShape(t, m);
  }

  lemma PrefixLength(s: Bytes, k: nat)
    requires CharLength(s) > 0 && k <= |s|
    ensures CharLength(s[..k]) == if k < CharLength(s) then 0 else CharLength(s)
  {
    var n, t := CharLength(s), s[..k];
    if k >= n {
      PrefixChar(s, t, n);
    } else if CharLength(t) > 0 {
      PrefixChar(s, t, CharLength(t));
    }
  }

  // ---- the strings this grammar allows ------------------------------------------------

  // A code point that is not a surrogate.
  predicate IsScalar(c: bv32) {
    c <= 0x10FFFF && !(0xD800 <= c <= 0xDFFF)
  }

  // The low six bits of c, as a continuation byte.
  function Tail(c: bv32): bv8 {
    0x80 | ((c & 0x3F) as bv8)
  }

  // The table of section 3 of RFC 3629.
  function Encode(c: bv32): (r: Bytes)
    requires IsScalar(c)
    ensures 1 <= |r| <= 4
  {
    if c <= 0x7F then [c as bv8]
    else if c <= 0x7FF then [0xC0 | ((c >> 6) as bv8), Tail(c)]
    else if c <= 0xFFFF then [0xE0 | ((c >> 12) as bv8), Tail(c >> 6), Tail(c)]
    else [0xF0 | ((c >> 18) as bv8), Tail(c >> 12), Tail(c >> 6), Tail(c)]
  }

  function EncodeAll(cs: seq<bv32>): Bytes
    requires forall c :: c in cs ==> IsScalar(c)
  {
    if cs == [] then [] else Encode(cs[0]) + EncodeAll(cs[1..])
  }

  lemma Leads(c: bv32)
    requires IsScalar(c)
    ensures IsTail(Tail(c))
    ensures 0x80 <= c <= 0x7FF ==> Opens(2, 0xC0 | ((c >> 6) as bv8), Tail(c))
    ensures 0x800 <= c <= 0xFFFF ==> Opens(3, 0xE0 | ((c >> 12) as bv8), Tail(c >> 6))
    ensures 0x10000 <= c ==> Opens(4, 0xF0 | ((c >> 18) as bv8), Tail(c >> 12)) && IsTail(Tail(c >> 6))
  {
  }

  lemma EncodedIsChar(c: bv32, rest: Bytes)
    requires IsScalar(c)
    ensures StartsWithChar(Encode(c) + rest, |Encode(c)|)
  {
    Leads(c);
    hide Opens, IsTail, Tail;
  }

  // The code point that two, three or four bytes spell.
  lemma Spelled2(x: bv8, y: bv8) returns (c: bv32)
    requires Opens(2, x, y)
    ensures 0x80 <= c <= 0x7FF && 0xC0 | ((c >> 6) as bv8) == x && Tail(c) == y
  {
    c := ((x & 0x1F) as bv32 << 6) | ((y & 0x3F) as bv32);
  }

  lemma Spelled3(x: bv8, y: bv8, z: bv8) returns (c: bv32)
    requires Opens(3, x, y) && IsTail(z)
    ensures 0x800 <= c <= 0xFFFF && IsScalar(c)
    ensures 0xE0 | ((c >> 12) as bv8) == x && Tail(c >> 6) == y && Tail(c) == z
  {
    c := ((x & 0x0F) as bv32 << 12) | ((y & 0x3F) as bv32 << 6) | ((z & 0x3F) as bv32);
  }

  lemma Spelled4(x: bv8, y: bv8, z: bv8, t: bv8) returns (c: bv32)
    requires Opens(4, x, y) && IsTail(z) && IsTail(t)
    ensures 0x10000 <= c <= 0x10FFFF
    ensures 0xF0 | ((c >> 18) as bv8) == x && Tail(c >> 12) == y && Tail(c >> 6) == z && Tail(c) == t
  {
    c := ((x & 0x07) as bv32 << 18) | ((y & 0x3F) as bv32 << 12) | ((z & 0x3F) as bv32 << 6) | ((t & 0x3F) as bv32);
  }

  lemma Encoded1(x: bv8) returns (c: bv32)
    requires x <= 0x7F
    ensures IsScalar(c) && Encode(c) == [x]
  {
    c := x as bv32;
  }

  lemma Encoded2(x: bv8, y: bv8) returns (c: bv32)
    requires Opens(2, x, y)
    ensures IsScalar(c) && Encode(c) == [x, y]
  {
    c := Spelled2(x, y);
    hide Opens, Tail;
  }

  lemma Encoded3(x: bv8, y: bv8, z: bv8) returns (c: bv32)
    requires Opens(3, x, y) && IsTail(z)
    ensures IsScalar(c) && Encode(c) == [x, y, z]
  {
    c := Spelled3(x, y, z);
    hide Opens, Tail;
  }

  lemma Encoded4(x: bv8, y: bv8, z: bv8, t: bv8) returns (c: bv32)
    requires Opens(4, x, y) && IsTail(z) && IsTail(t)
    ensures IsScalar(c) && Encode(c) == [x, y, z, t]
  {
    c := Spelled4(x, y, z, t);
    hide Opens, Tail;
  }

  lemma CharIsEncoded(s: Bytes, n: nat) returns (c: bv32)
    requires StartsWithChar(s, n)
    ensures IsScalar(c) && Encode(c) == s[..n]
  {
    hide Encode, IsScalar, Opens, IsTail;
    if n == 1 {
      c := Encoded1(s[0]);
      assert s[..1] == [s[0]];
    } else if n == 2 {
      c := Encoded2(s[0], s[1]);
      assert s[..2] == [s[0], s[1]];
    } else if n == 3 {
      c := Encoded3(s[0], s[1], s[2]);
      assert s[..3] == [s[0], s[1], s[2]];
    } else {
      c := Encoded4(s[0], s[1], s[2], s[3]);
      assert s[..4] == [s[0], s[1], s[2], s[3]];
    }
  }

  lemma FirstChar(s: Bytes) returns (n: nat)
    requires IsValid(s) && s != []
    ensures 0 < n <= |s| && StartsWithChar(s, n) && IsValid(s[n..])
  {
    n := CharLength(s);
    hide Opens;
  }

  // Valid UTF-8 is what encoding some scalar values gives, one after the other.
  lemma {:induction false} ValidIsEncoded(s: Bytes) returns (cs: seq<bv32>)
    requires IsValid(s)
    ensures forall c :: c in cs ==> IsScalar(c)
    ensures s == EncodeAll(cs)
    decreases |s|
  {
    hide Encode, StartsWithChar, IsScalar, IsValid, CharLength;
    cs := [];
    if s != [] {
      var n := FirstChar(s);
      var c := CharIsEncoded(s, n);
      var rest := ValidIsEncoded(s[n..]);
      cs := [c] + rest;
      assert cs[1..] == rest && s == s[..n] + s[n..];
    }
  }

  lemma {:induction false} EncodedIsValid(cs: seq<bv32>)
    requires forall c :: c in cs ==> IsScalar(c)
    ensures IsValid(EncodeAll(cs))
  {
    if cs != [] {
      var c, rest := cs[0], EncodeAll(cs[1..]);
      var s := Encode(c) + rest;
      EncodedIsValid(cs[1..]);
      EncodedIsChar(c, rest);
      CharShape(s, |Encode(c)|);
      hide Encode, StartsWithChar, IsScalar;
      assert s[|Encode(c)|..] == rest;
    }
  }

  // In valid UTF-8 the code-point boundaries are the bytes that continue nothing.
  lemma {:induction false} BoundaryIff(s: Bytes, k: nat)
    requires IsValid(s) && k < |s|
    ensures IsValid(s[..k]) <==> !IsContinuation(s[k])
    decreases |s|
  {
    var n := CharLength(s);
    CharShape(s, n);
    PrefixLength(s, k);
    if k >= n {
      assert s[..k][n..] == s[n..][..k - n];
      BoundaryIff(s[n..], k - n);
    }
  }

  // No character is longer than four bytes.
  lemma {:induction false} AtMostThreeContinuations(s: Bytes, k: nat)
    requires IsValid(s) && k + 3 < |s|
    ensures !(IsContinuation(s[k]) && IsContinuation(s[k + 1]) && IsContinuation(s[k + 2]) && IsContinuation(s[k + 3]))
    decreases |s|
  {
    var n := CharLength(s);
    CharShape(s, n);
    if k >= n {
      AtMostThreeContinuations(s[n..], k - n);
    } else if k + 3 >= n {
      CharShape(s[n..], CharLength(s[n..]));
    }
  }

  // ---- truncate -----------------------------------------------------------------------

  function WalkBack(s: Bytes, cut: nat): (c: nat)
    requires cut < |s|
    ensures c <= cut && (c > 0 ==> !IsContinuation(s[c]))
    ensures forall k :: c < k <= cut ==> IsContinuation(s[k])
  {
    if cut > 0 && IsContinuation(s[cut]) then WalkBack(s, cut - 1) else cut
  }

  function Truncated(s: Bytes, n: nat): Bytes {
    if |s| <= n then s else s[..WalkBack(s, n)]
  }

  method Truncate(s: Bytes, n: nat) returns (r: Bytes)
    ensures r == Truncated(s, n)
  {
    if |s| <= n {
      return s;
    }
    var cut := n;
    while cut > 0 && IsContinuation(s[cut])
      invariant 0 <= cut <= n
      invariant WalkBack(s, cut) == WalkBack(s, n)
    {
      cut := cut - 1;
    }
    r := s[..cut];
  }

  // On any bytes: a prefix within the budget, the whole when it fits; a shorter one ends before a
  // byte that continues nothing, with continuation bytes only from there to the budget.
  lemma TruncatedOnAnyBytes(s: Bytes, n: nat)
    ensures var r := Truncated(s, n);
            && r <= s && |r| <= n
            && (|s| <= n ==> r == s)
            && (|s| > n ==>
                  && (r == [] || s[|r|] & 0xC0 != 0x80)
                  && forall k :: |r| < k <= n ==> s[k] & 0xC0 == 0x80)
  {
  }

  // For valid UTF-8 the result is valid, is the longest valid prefix within the budget, and
  // gives up at most three bytes of it.
  lemma TruncatedIsLongest(s: Bytes, n: nat)
    requires IsValid(s)
    ensures var r := Truncated(s, n);
            && IsValid(r) && r <= s && |r| <= n
            && (forall k :: 0 <= k <= n && k <= |s| && IsValid(s[..k]) ==> k <= |r|)
            && (|s| > n ==> n - |r| <= 3)
  {
    if |s| > n {
      var c := WalkBack(s, n);
      BoundaryIff(s, c);
      if c == 0 {
        assert s[..0] == [];
      }
      forall k | 0 <= k <= n && IsValid(s[..k])
        ensures k <= c
      {
        BoundaryIff(s, k);
      }
      if n - c > 3 {
        AtMostThreeContinuations(s, c + 1);
      }
    }
  }

  // Truncating twice is truncating once to the smaller budget, on any bytes at all.
  lemma TruncateComposes(s: Bytes, n: nat, m: nat)
    ensures Truncated(Truncated(s, n), m) == Truncated(s, if m < n then m else n)
  {
    if |s| > n {
      var c := WalkBack(s, n);
      if c > m {
        SameWalk(s, s[..c], m);
        assert s[..c][..WalkBack(s, m)] == s[..WalkBack(s, m)];
      } else if m < n {
        WalkThrough(s, n, m);
      }
    }
  }

  lemma {:induction false} SameWalk(s: Bytes, t: Bytes, cut: nat)
    requires cut < |t| && t <= s
    ensures WalkBack(t, cut) == WalkBack(s, cut)
  {
    if cut > 0 && IsContinuation(s[cut]) {
      SameWalk(s, t, cut - 1);
    }
  }

  lemma {:induction false} WalkThrough(s: Bytes, n: nat, m: nat)
    requires n < |s| && WalkBack(s, n) <= m <= n
    ensures WalkBack(s, m) == WalkBack(s, n)
  {
    if m < n {
      WalkThrough(s, n - 1, m);
    }
  }
}
