/**
  The CRC-8 of the Joy-Con wired protocol: polynomial division of the message, and
  the errors it detects in messages of any length.

  Bit-level facts are proved by small lemmas of their own; the lemmas about messages
  hide the operators and use those facts only.
*/
module JoyConCrc {
  const POLY: bv8 := 0x8D
  type Message = seq<bv8>

  function Xor(x: bv8, y: bv8): bv8 { x ^ y }
  predicate Top(x: bv8) { x & 0x80 != 0 }

  // One turn of the inner loop of jc_crc.
  function Shift(x: bv8): bv8 {
    if Top(x) then (x << 1) ^ POLY else x << 1
  }

  function ShiftN(x: bv8, n: nat): bv8 {
    if n == 0 then x else Shift(ShiftN(x, n - 1))
  }

  // The register after the message, starting from crc.
  function CrcFrom(crc: bv8, m: Message): bv8 {
    if m == [] then crc else ShiftN(Xor(CrcFrom(crc, m[..|m| - 1]), m[|m| - 1]), 8)
  }

  function Crc(m: Message): bv8 { CrcFrom(0, m) }

  // jc_crc
  method JcCrc(data: Message) returns (crc: bv8)
    ensures crc == Crc(data)
  {
    hide Shift, Xor;
    crc := 0;
    var i := 0;
    while i < |data|
      invariant 0 <= i <= |data| && crc == Crc(data[..i])
    {
      XorIs(crc, data[i]);
      crc := crc ^ data[i];
      ghost var start := crc;
      var j := 0;
      while j < 8
        invariant 0 <= j <= 8 && crc == ShiftN(start, j)
      {
        ShiftIs(crc);
        if crc & 0x80 != 0 {
          crc := (crc << 1) ^ POLY;
        } else {
          crc := crc << 1;
        }
        j := j + 1;
      }
      assert data[..i + 1][..i] == data[..i];
      i := i + 1;
    }
    assert data[..i] == data;
  }

  lemma XorIs(x: bv8, y: bv8)
    ensures Xor(x, y) == x ^ y
  {
  }

  lemma ShiftIs(x: bv8)
    ensures Shift(x) == if x & 0x80 != 0 then (x << 1) ^ POLY else x << 1
  {
  }

  // ----- bit-level facts -----

  lemma XorZero(x: bv8)
    ensures Xor(x, 0) == x && Xor(0, x) == x
  {
  }

  lemma XorApart(x: bv8, y: bv8)
    ensures Xor(x, y) == 0 <==> x == y
  {
  }

  lemma XorAssociative(a: bv8, b: bv8, c: bv8)
    ensures Xor(Xor(a, b), c) == Xor(a, Xor(b, c))
  {
  }

  lemma XorCommutative(a: bv8, b: bv8)
    ensures Xor(a, b) == Xor(b, a)
  {
  }

  lemma XorSwap(a: bv8, b: bv8, c: bv8, d: bv8)
    ensures Xor(Xor(a, b), Xor(c, d)) == Xor(Xor(a, c), Xor(b, d))
  {
    hide Xor;
    XorAssociative(a, b, Xor(c, d));
    XorAssociative(b, c, d);
    XorCommutative(b, c);
    XorAssociative(c, b, d);
    XorAssociative(a, c, Xor(b, d));
  }

  lemma ShiftLinearNeither(x: bv8, y: bv8)
    requires !Top(x) && !Top(y)
    ensures Shift(Xor(x, y)) == Xor(Shift(x), Shift(y))
  {
  }

  lemma ShiftLinearBoth(x: bv8, y: bv8)
    requires Top(x) && Top(y)
    ensures Shift(Xor(x, y)) == Xor(Shift(x), Shift(y))
  {
  }

  lemma ShiftLinearFirst(x: bv8, y: bv8)
    requires Top(x) && !Top(y)
    ensures Shift(Xor(x, y)) == Xor(Shift(x), Shift(y))
  {
  }

  lemma ShiftLinearSecond(x: bv8, y: bv8)
    requires !Top(x) && Top(y)
    ensures Shift(Xor(x, y)) == Xor(Shift(x), Shift(y))
  {
  }

  lemma ShiftNonzero(x: bv8)
    requires x != 0
    ensures Shift(x) != 0
  {
  }

  lemma ShiftZero()
    ensures Shift(0) == 0
  {
  }

  // ----- linearity -----

  lemma ShiftLinear(x: bv8, y: bv8)
    ensures Shift(Xor(x, y)) == Xor(Shift(x), Shift(y))
  {
    hide Shift, Xor, Top;
    if Top(x) {
      if Top(y) { ShiftLinearBoth(x, y); } else { ShiftLinearFirst(x, y); }
    } else {
      if Top(y) { ShiftLinearSecond(x, y); } else { ShiftLinearNeither(x, y); }
    }
  }

  lemma {:induction false} ShiftNLinear(x: bv8, y: bv8, n: nat)
    ensures ShiftN(Xor(x, y), n) == Xor(ShiftN(x, n), ShiftN(y, n))
  {
    hide Shift, Xor;
    if n > 0 {
      ShiftNLinear(x, y, n - 1);
      ShiftLinear(ShiftN(x, n - 1), ShiftN(y, n - 1));
    }
  }

  // The polynomial has a constant term, so the register shifts out to zero only from zero.
  lemma {:induction false} ShiftNZero(x: bv8, n: nat)
    ensures ShiftN(x, n) == 0 <==> x == 0
  {
    hide Shift, Xor;
    if n > 0 {
      ShiftNZero(x, n - 1);
      ShiftZero();
      if ShiftN(x, n - 1) != 0 { ShiftNonzero(ShiftN(x, n - 1)); }
    }
  }

  function XorMessages(m: Message, n: Message): Message
    requires |m| == |n|
  {
    seq(|m|, i requires 0 <= i < |m| => Xor(m[i], n[i]))
  }

  // The CRC of a sum is the sum of the CRCs.
  lemma {:induction false} CrcLinear(c: bv8, d: bv8, m: Message, n: Message)
    requires |m| == |n|
    ensures CrcFrom(Xor(c, d), XorMessages(m, n)) == Xor(CrcFrom(c, m), CrcFrom(d, n))
    decreases |m|
  {
    hide Shift, Xor;
    if m != [] {
      var l := |m| - 1;
      assert XorMessages(m, n)[..l] == XorMessages(m[..l], n[..l]);
      CrcLinear(c, d, m[..l], n[..l]);
      var a, b := CrcFrom(c, m[..l]), CrcFrom(d, n[..l]);
      XorSwap(a, b, m[l], n[l]);
      ShiftNLinear(Xor(a, m[l]), Xor(b, n[l]), 8);
    }
  }

  // A message followed by its own CRC checks out to zero, and only by its own.
  lemma SelfCheck(m: Message, c: bv8)
    ensures Crc(m + [c]) == 0 <==> c == Crc(m)
  {
    hide Shift, Xor;
    assert (m + [c])[..|m|] == m;
    ShiftNZero(Xor(Crc(m), c), 8);
    XorApart(Crc(m), c);
  }

  lemma {:induction false} CrcConcat(c: bv8, m: Message, n: Message)
    ensures CrcFrom(c, m + n) == CrcFrom(CrcFrom(c, m), n)
    decreases |n|
  {
    hide Shift, Xor;
    if n == [] {
      assert m + n == m;
    } else {
      var l := |n| - 1;
      assert (m + n)[..|m| + l] == m + n[..l];
      CrcConcat(c, m, n[..l]);
    }
  }

  // The polynomial: with linearity and concatenation this value fixes all others.
  lemma CrcOfOne()
    ensures Crc([]) == 0 && Crc([1]) == 0x8D
  {
    assert [1 as bv8][..0] == [];
    XorZero(1);
    CarryShifted(0x80);
  }

  // ----- error detection -----

  ghost predicate AllZero(m: Message) {
    forall i :: 0 <= i < |m| ==> m[i] == 0
  }

  // Zero bytes keep a zero register at zero and a nonzero one nonzero.
  lemma {:induction false} ZerosKeep(c: bv8, m: Message)
    requires AllZero(m)
    ensures CrcFrom(c, m) == 0 <==> c == 0
    decreases |m|
  {
    hide Shift, Xor;
    if m != [] {
      var l := |m| - 1;
      ZerosKeep(c, m[..l]);
      XorZero(CrcFrom(c, m[..l]));
      ShiftNZero(CrcFrom(c, m[..l]), 8);
    }
  }

  // An error pattern with nothing outside bytes i and i + 1 goes unnoticed exactly when
  // the second byte is the shifted first.
  lemma TwoByteError(e: Message, i: nat)
    requires i + 1 < |e| && AllZero(e[..i]) && AllZero(e[i + 2..])
    ensures Crc(e) == 0 <==> e[i + 1] == ShiftN(e[i], 8)
  {
    hide Shift, Xor;
    var head, mid, tail := e[..i], [e[i], e[i + 1]], e[i + 2..];
    assert e == (head + mid) + tail;
    CrcConcat(0, head + mid, tail);
    CrcConcat(0, head, mid);
    ZerosKeep(0, head);
    ZerosKeep(CrcFrom(0, mid), tail);
    assert mid[..1] == [e[i]] && mid[..1][..0] == [];
    XorZero(e[i]);
    assert CrcFrom(0, [e[i]]) == ShiftN(e[i], 8) by { assert [e[i]][..0] == []; }
    var r := Xor(ShiftN(e[i], 8), e[i + 1]);
    assert CrcFrom(0, mid) == ShiftN(r, 8);
    ShiftNZero(r, 8);
    XorApart(ShiftN(e[i], 8), e[i + 1]);
  }

  // The CRCs of two messages agree exactly when the CRC of their difference is zero.
  lemma CrcAgree(m: Message, n: Message)
    requires |m| == |n|
    ensures Crc(m) == Crc(n) <==> Crc(XorMessages(m, n)) == 0
  {
    hide Shift, Xor;
    CrcLinear(0, 0, m, n);
    XorZero(0);
    XorApart(Crc(m), Crc(n));
  }

  // Messages that differ in one byte have different CRCs.
  lemma ByteDetected(m: Message, n: Message, i: nat)
    requires |m| == |n| && i < |m| && m[i] != n[i]
    requires forall j :: 0 <= j < |m| && j != i ==> m[j] == n[j]
    ensures Crc(m) != Crc(n)
  {
    hide Shift, Xor;
    var e := XorMessages(m, n);
    forall j | 0 <= j < |m| ensures e[j] == 0 <==> m[j] == n[j] { XorApart(m[j], n[j]); }
    var head, mid, tail := e[..i], [e[i]], e[i + 1..];
    assert e == (head + mid) + tail;
    CrcConcat(0, head + mid, tail);
    CrcConcat(0, head, mid);
    ZerosKeep(0, head);
    ZerosKeep(CrcFrom(0, mid), tail);
    assert mid[..0] == [];
    XorZero(e[i]);
    ShiftNZero(e[i], 8);
    CrcAgree(m, n);
  }

  // ----- bursts -----

  // The two bytes a, b of a 16-bit window moved one place to the left.
  function LeftHigh(a: bv8, b: bv8): bv8 { (a << 1) | (if Top(b) then 1 else 0) }
  function LeftLow(b: bv8): bv8 { b << 1 }

  // The two bytes of a window that holds the pattern q, k places from the right.
  function High(q: bv8, k: nat): bv8 {
    if k == 0 then 0 else LeftHigh(High(q, k - 1), Low(q, k - 1))
  }

  function Low(q: bv8, k: nat): bv8 {
    if k == 0 then q else LeftLow(Low(q, k - 1))
  }

  // The last k bits.  While k < 8 no bit of the pattern leaves the window.
  function Bound(k: nat): bv8 {
    if k == 0 then 0 else OneMore(Bound(k - 1))
  }

  function OneMore(b: bv8): bv8 { (b << 1) | 1 }

  lemma {:induction false} HighBound(q: bv8, k: nat)
    ensures Within(High(q, k), Bound(k))
  {
    hide Within, LeftHigh, LeftLow, OneMore;
    if k > 0 {
      HighBound(q, k - 1);
      BoundStep(High(q, k - 1), Low(q, k - 1), Bound(k - 1));
    } else {
      NothingWithin();
    }
  }

  // Every bit of a is one of b.
  predicate Within(a: bv8, b: bv8) { a & b == a }

  lemma NothingWithin()
    ensures Within(0, 0)
  {
  }

  lemma BoundStep(a: bv8, b: bv8, bound: bv8)
    requires Within(a, bound)
    ensures Within(LeftHigh(a, b), OneMore(bound))
  {
  }

  lemma BoundTop(k: nat)
    requires k < 8
    ensures !Top(Bound(k))
  {
    assert Bound(2) == 3 && Bound(4) == 15 && Bound(6) == 63 && Bound(7) == 127;
  }

  lemma NoTop(a: bv8, b: bv8)
    requires Within(a, b) && !Top(b)
    ensures !Top(a)
  {
  }

  function Carry(b: bv8): bv8 { if Top(b) then 1 else 0 }
  function Feedback(b: bv8): bv8 { if Top(b) then POLY else 0 }

  lemma HighStep(a: bv8, b: bv8)
    requires !Top(a)
    ensures LeftHigh(a, b) == Xor(Shift(a), Carry(b))
  {
  }

  lemma LowStep(b: bv8)
    ensures LeftLow(b) == Xor(Shift(b), Feedback(b))
  {
  }

  lemma CarryShifted(b: bv8)
    ensures ShiftN(Carry(b), 8) == Feedback(b)
  {
    assert ShiftN(1, 3) == 8 && ShiftN(1, 6) == 64 && ShiftN(1, 8) == POLY;
    assert ShiftN(0, 4) == 0 && ShiftN(0, 8) == 0;
  }

  lemma {:induction false} ShiftNCommutes(x: bv8, n: nat)
    ensures ShiftN(Shift(x), n) == Shift(ShiftN(x, n))
  {
    hide Shift;
    if n > 0 { ShiftNCommutes(x, n - 1); }
  }

  lemma XorCancel(a: bv8, b: bv8, p: bv8)
    ensures Xor(Xor(a, p), Xor(b, p)) == Xor(a, b)
  {
    hide Xor;
    XorSwap(a, p, b, p);
    XorApart(p, p);
    XorZero(Xor(a, b));
  }

  // One place to the left in the window is one more shift of the register.
  lemma WindowStep(a: bv8, b: bv8)
    requires !Top(a)
    ensures Xor(ShiftN(LeftHigh(a, b), 8), LeftLow(b)) == Shift(Xor(ShiftN(a, 8), b))
  {
    hide Xor, Shift, Top, Carry, Feedback, LeftHigh, LeftLow;
    HighStep(a, b);
    LowStep(b);
    ShiftNLinear(Shift(a), Carry(b), 8);
    CarryShifted(b);
    ShiftNCommutes(a, 8);
    XorCancel(Shift(ShiftN(a, 8)), Shift(b), Feedback(b));
    ShiftLinear(ShiftN(a, 8), b);
  }

  // The window's remainder is the pattern shifted k times.
  lemma {:induction false} WindowIs(q: bv8, k: nat)
    requires k <= 8
    ensures Xor(ShiftN(High(q, k), 8), Low(q, k)) == ShiftN(q, k)
  {
    hide Xor, Shift, Top, Within, LeftHigh, LeftLow;
    if k == 0 {
      ShiftNZero(0, 8);
      XorZero(q);
    } else {
      WindowIs(q, k - 1);
      HighBound(q, k - 1);
      BoundTop(k - 1);
      NoTop(High(q, k - 1), Bound(k - 1));
      WindowStep(High(q, k - 1), Low(q, k - 1));
    }
  }

  // Messages that differ by the pattern q in the window at byte i have different CRCs.
  lemma WindowDetected(m: Message, n: Message, i: nat, q: bv8, k: nat)
    requires |m| == |n| && i + 1 < |m| && q != 0 && k <= 8
    requires Xor(m[i], n[i]) == High(q, k) && Xor(m[i + 1], n[i + 1]) == Low(q, k)
    requires forall j :: 0 <= j < |m| && j != i && j != i + 1 ==> m[j] == n[j]
    ensures Crc(m) != Crc(n)
  {
    hide Shift, Xor;
    var e := XorMessages(m, n);
    forall j | 0 <= j < |m| && j != i && j != i + 1 ensures e[j] == 0 { XorApart(m[j], n[j]); }
    TwoByteError(e, i);
    WindowIs(q, k);
    ShiftNZero(q, k);
    XorApart(ShiftN(High(q, k), 8), Low(q, k));
    CrcAgree(m, n);
  }

  // a has only its last k bits set, and b none of its last k.
  ghost predicate Straddles(a: bv8, b: bv8, k: nat) {
    Within(a, Bound(k)) && Clear(b, Bound(k))
  }

  predicate Clear(a: bv8, b: bv8) { a & b == 0 }

  // The window a, b moved one place to the right.
  function RightHigh(a: bv8): bv8 { a >> 1 }
  function RightLow(a: bv8, b: bv8): bv8 { (b >> 1) | (if a & 1 != 0 then 0x80 else 0) }

  lemma RightMoves(a: bv8, b: bv8, bound: bv8)
    requires !Top(bound) && Within(a, OneMore(bound)) && Clear(b, OneMore(bound))
    ensures Within(RightHigh(a), bound) && Clear(RightLow(a, b), bound)
    ensures LeftHigh(RightHigh(a), RightLow(a, b)) == a && LeftLow(RightLow(a, b)) == b
  {
  }

  lemma OnlyLow(a: bv8)
    requires Within(a, 0)
    ensures a == 0
  {
  }

  // The pattern in a window that holds it k places from the right.
  function Pattern(a: bv8, b: bv8, k: nat): bv8
    decreases k
  {
    if k == 0 then b else Pattern(RightHigh(a), RightLow(a, b), k - 1)
  }

  lemma {:induction false} PatternIs(a: bv8, b: bv8, k: nat)
    requires k <= 8 && Straddles(a, b, k)
    ensures High(Pattern(a, b, k), k) == a && Low(Pattern(a, b, k), k) == b
    decreases k
  {
    hide Top, Within, Clear, RightHigh, RightLow, LeftHigh, LeftLow, OneMore;
    if k == 0 {
      OnlyLow(a);
    } else {
      BoundTop(k - 1);
      RightMoves(a, b, Bound(k - 1));
      PatternIs(RightHigh(a), RightLow(a, b), k - 1);
    }
  }

  // Messages of any length that differ, and only within eight consecutive bits, have
  // different CRCs: k of the bits are the last ones of byte i, the others the first of the next.
  lemma BurstDetected(m: Message, n: Message, i: nat, k: nat)
    requires |m| == |n| && i + 1 < |m| && k <= 8 && m != n
    requires Straddles(Xor(m[i], n[i]), Xor(m[i + 1], n[i + 1]), k)
    requires forall j :: 0 <= j < |m| && j != i && j != i + 1 ==> m[j] == n[j]
    ensures Crc(m) != Crc(n)
  {
    hide Crc, Xor, High, Low, Straddles, Pattern;
    var a, b := Xor(m[i], n[i]), Xor(m[i + 1], n[i + 1]);
    PatternIs(a, b, k);
    XorApart(m[i], n[i]);
    XorApart(m[i + 1], n[i + 1]);
    HighNone(k);
    WindowDetected(m, n, i, Pattern(a, b, k), k);
  }

  // ----- polynomial division -----

  // Long division, one message bit at a time from the top: the next bit enters at the
  // right of the register and the bit that leaves decides whether to subtract.
  function DivideBit(r: bv8, bit: bool): bv8 {
    var s := (r << 1) | (if bit then 1 else 0);
    if Top(r) then s ^ POLY else s
  }

  // The first n bits of byte b.
  function DivideBits(r: bv8, b: bv8, n: nat): bv8 {
    if n == 0 then r else DivideBit(DivideBits(r, b, n - 1), Top(Low(b, n - 1)))
  }

  function Divide(m: Message): bv8 {
    if m == [] then 0 else DivideBits(Divide(m[..|m| - 1]), m[|m| - 1], 8)
  }

  lemma DivideBitIs(r: bv8, b: bv8)
    ensures DivideBit(r, Top(b)) == Xor(Shift(r), Carry(b))
  {
  }

  lemma {:induction false} DivideBitsIs(r: bv8, b: bv8, n: nat)
    requires n <= 8
    ensures DivideBits(r, b, n) == Xor(ShiftN(r, n), High(b, n))
    decreases n
  {
    hide Xor, Shift, Top, Within, Carry, DivideBit, LeftHigh, LeftLow, OneMore;
    if n == 0 {
      XorZero(r);
    } else {
      DivideBitsIs(r, b, n - 1);
      var s, h := ShiftN(r, n - 1), High(b, n - 1);
      HighBound(b, n - 1);
      BoundTop(n - 1);
      NoTop(h, Bound(n - 1));
      DivideBitIs(Xor(s, h), Low(b, n - 1));
      ShiftLinear(s, h);
      HighStep(h, Low(b, n - 1));
      XorAssociative(Shift(s), Shift(h), Carry(Low(b, n - 1)));
    }
  }

  // Four places to the left half of the pattern is in the high byte, eight places all of it.
  lemma HighHalf(b: bv8)
    ensures Low(b, 4) == b << 4 && High(b, 4) == b >> 4
  {
    assert Low(b, 1) == b << 1 && High(b, 1) == b >> 7;
    assert Low(b, 2) == b << 2 && High(b, 2) == b >> 6;
    assert Low(b, 3) == b << 3 && High(b, 3) == b >> 5;
  }

  lemma HighAll(b: bv8)
    ensures High(b, 8) == b
  {
    HighHalf(b);
    assert Low(b, 5) == b << 5 && High(b, 5) == b >> 3;
    assert Low(b, 6) == b << 6 && High(b, 6) == b >> 2;
    assert Low(b, 7) == b << 7 && High(b, 7) == b >> 1;
  }

  lemma HighNone(n: nat)
    requires n <= 8
    ensures High(0, n) == 0 && Low(0, n) == 0
  {
  }

  // jc_crc is the remainder of the message followed by eight zero bits.
  lemma {:induction false} CrcIsRemainder(m: Message)
    ensures Crc(m) == Divide(m + [0])
    decreases |m|
  {
    hide Xor, Shift, Top, DivideBit;
    assert (m + [0])[..|m|] == m;
    DivideBitsIs(Divide(m), 0, 8);
    HighNone(8);
    XorZero(ShiftN(Divide(m), 8));
    if m == [] {
      ShiftNZero(0, 8);
    } else {
      var l := |m| - 1;
      CrcIsRemainder(m[..l]);
      assert (m[..l] + [0])[..l] == m[..l];
      DivideBitsIs(Divide(m[..l]), 0, 8);
      XorZero(ShiftN(Divide(m[..l]), 8));
      DivideBitsIs(Divide(m[..l]), m[l], 8);
      HighAll(m[l]);
    }
  }
}
