/** Bit stuffing: frames between flags 01111110 in which the flag cannot occur again. */
module BitStuffing {

  type Bits = seq<bool>

  const FLAG: Bits := [false, true, true, true, true, true, true, false]

  /** The stuffed form of data that follows count ones. */
  function Stuffed(data: Bits, count: nat): Bits {
    if data == [] then []
    else if !data[0] then [false] + Stuffed(data[1..], 0)
    else if count + 1 == 5 then [true, false] + Stuffed(data[1..], 0)
    else [true] + Stuffed(data[1..], count + 1)
  }

  /** What the receiver makes of any bits that follow count ones. */
  function Unstuffed(s: Bits, count: nat): Bits {
    if s == [] then []
    else if !s[0] then [false] + Unstuffed(s[1..], 0)
    else if count + 1 == 5 then
      if |s| > 1 && !s[1] then [true] + Unstuffed(s[2..], 0) else [true] + Unstuffed(s[1..], 0)
    else [true] + Unstuffed(s[1..], count + 1)
  }

  method BitStuff(data: Bits) returns (stuffed: Bits)
    ensures stuffed == Stuffed(data, 0)
  {
    stuffed := [];
    var count, i := 0, 0;
    while i < |data|
      invariant 0 <= i <= |data| && stuffed + Stuffed(data[i..], count) == Stuffed(data, 0)
    {
      ghost var done, count0 := stuffed, count;
      StuffStep(data, i, count0);
      stuffed := stuffed + [data[i]];
      if data[i] {
        count := count + 1;
        if count == 5 {
          stuffed := stuffed + [false];
          count := 0;
        }
      } else {
        count := 0;
      }
      i := i + 1;
      Regroup(done, stuffed, Stuffed(data[i..], count));
    }
  }

  lemma StuffStep(data: Bits, i: nat, count: nat)
    requires i < |data|
    ensures Stuffed(data[i..], count) ==
      if !data[i] then [false] + Stuffed(data[i + 1..], 0)
      else if count + 1 == 5 then [true, false] + Stuffed(data[i + 1..], 0)
      else [true] + Stuffed(data[i + 1..], count + 1)
  {
    assert data[i..][1..] == data[i + 1..];
  }

  lemma Regroup(done: Bits, more: Bits, rest: Bits)
    requires done <= more
    ensures more + rest == done + (more[|done|..] + rest)
  {}

  method BitUnstuff(stuffed: Bits) returns (unstuffed: Bits)
    ensures unstuffed == Unstuffed(stuffed, 0)
  {
    unstuffed := [];
    var count, i := 0, 0;
    while i < |stuffed|
      invariant 0 <= i <= |stuffed| && unstuffed + Unstuffed(stuffed[i..], count) == Unstuffed(stuffed, 0)
    {
      ghost var done, rest := unstuffed, stuffed[i..];
      unstuffed := unstuffed + [stuffed[i]];
      if stuffed[i] {
        count := count + 1;
        if count == 5 {
          if i + 1 < |stuffed| && !stuffed[i + 1] {
            i := i + 1;
            assert stuffed[i + 1..] == rest[2..];
          }
          count := 0;
        }
      } else {
        count := 0;
      }
      i := i + 1;
      assert stuffed[i..] == rest[1..] || stuffed[i..] == rest[2..];
      Regroup(done, unstuffed, Unstuffed(stuffed[i..], count));
    }
  }

  /** Unstuffing undoes stuffing. */
  lemma {:induction false} RoundTrip(data: Bits, count: nat)
    requires count < 5
    ensures Unstuffed(Stuffed(data, count), count) == data
  {
    if data != [] {
      var count' := if !data[0] || count + 1 == 5 then 0 else count + 1;
      var rest, s := Stuffed(data[1..], count'), Stuffed(data, count);
      RoundTrip(data[1..], count');
      if data[0] && count + 1 == 5 {
        assert s[2..] == rest;
      } else {
        assert s[1..] == rest;
      }
    }
  }

  /** At most one bit is added for every five. */
  lemma {:induction false} Overhead(data: Bits, count: nat)
    requires count < 5
    ensures |data| <= |Stuffed(data, count)| <= |data| + (|data| + count) / 5
  {
    if data != [] {
      Overhead(data[1..], if !data[0] || count + 1 == 5 then 0 else count + 1);
    }
  }

  ghost predicate OnesAt(s: Bits, a: nat, m: nat)
    requires a + m <= |s|
  {
    forall k :: a <= k < a + m ==> s[k]
  }

  // ----- What stuffed data look like -----

  /** Five ones in a row are never the end: a zero comes next. */
  ghost predicate FiveThenZero(s: Bits) {
    forall a: nat :: a + 5 <= |s| && OnesAt(s, a, 5) ==> a + 5 < |s| && !s[a + 5]
  }

  ghost function Ones(n: nat): (s: Bits)
    ensures |s| == n
  {
    seq(n, _ => true)
  }

  /** What comes before a zero does not matter, if it is at most five ones. */
  lemma BehindZero(count: nat, rest: Bits)
    requires count <= 5
    ensures FiveThenZero(Ones(count) + [false] + rest) <==> FiveThenZero(rest)
  {
    var s := Ones(count) + [false] + rest;
    assert !s[count] && forall k :: 0 <= k < |rest| ==> rest[k] == s[count + 1 + k];
    if FiveThenZero(rest) {
      forall a: nat | a + 5 <= |s| && OnesAt(s, a, 5)
        ensures a + 5 < |s| && !s[a + 5]
      {
        if a > count {
          assert OnesAt(rest, a - count - 1, 5) by {
            assert forall k :: a - count - 1 <= k < a - count + 4 ==> rest[k] == s[count + 1 + k];
          }
        }
      }
    }
    if FiveThenZero(s) {
      forall a: nat | a + 5 <= |rest| && OnesAt(rest, a, 5)
        ensures a + 5 < |rest| && !rest[a + 5]
      {
        assert OnesAt(s, count + 1 + a, 5) by {
          assert forall k :: count + 1 + a <= k < count + 6 + a ==> s[k] == rest[k - count - 1];
        }
      }
    }
  }

  /** Bits that follow count ones survive unstuffing and stuffing exactly if every five ones are followed by a zero. */
  lemma {:induction false} RestuffedAfter(s: Bits, count: nat)
    requires count < 5
    ensures Stuffed(Unstuffed(s, count), count) == s <==> FiveThenZero(Ones(count) + s)
    decreases |s|
  {
    if s == [] {
      assert FiveThenZero(Ones(count) + s);
    } else if !s[0] {
      RestuffedAfter(s[1..], 0);
      BehindZero(count, s[1..]);
      assert Ones(count) + s == Ones(count) + [false] + s[1..];
      assert Ones(0) + s[1..] == s[1..];
      SameHead([false], Stuffed(Unstuffed(s[1..], 0), 0), s);
    } else if count + 1 == 5 {
      AfterFive(s);
    } else {
      RestuffedAfter(s[1..], count + 1);
      assert Ones(count) + s == Ones(count + 1) + s[1..];
      SameHead([true], Stuffed(Unstuffed(s[1..], count + 1), count + 1), s);
    }
  }

  lemma SameHead(head: Bits, rest: Bits, s: Bits)
    requires head <= s
    ensures head + rest == s <==> rest == s[|head|..]
  {
    assert s == head + s[|head|..];
    if head + rest == s {
      assert (head + rest)[|head|..] == rest;
    }
  }

  lemma {:induction false} AfterFive(s: Bits)
    requires s != [] && s[0]
    ensures Stuffed(Unstuffed(s, 4), 4) == s <==> FiveThenZero(Ones(4) + s)
    decreases |s|, 0
  {
    var t := Ones(4) + s;
    assert OnesAt(t, 0, 5);
    if |s| > 1 && !s[1] {
      RestuffedAfter(s[2..], 0);
      BehindZero(5, s[2..]);
      assert t == Ones(5) + [false] + s[2..];
      assert Ones(0) + s[2..] == s[2..];
      SameHead([true, false], Stuffed(Unstuffed(s[2..], 0), 0), s);
    } else {
      var u := Unstuffed(s, 4);
      assert Stuffed(u, 4)[1] == false;
    }
  }

  /** The stuffed bit strings are exactly those in which every five ones are followed by a zero; on them stuffing
      undoes unstuffing. */
  lemma RestuffedIff(s: Bits)
    ensures Stuffed(Unstuffed(s, 0), 0) == s <==> FiveThenZero(s)
  {
    RestuffedAfter(s, 0);
    assert Ones(0) + s == s;
  }

  /** After five ones in a row the stuffed data go on, with a zero. */
  lemma StuffedFiveThenZero(data: Bits)
    ensures FiveThenZero(Stuffed(data, 0))
  {
    RoundTrip(data, 0);
    RestuffedIff(Stuffed(data, 0));
  }

  ghost function OnesIn(s: Bits): nat {
    if s == [] then 0 else (if s[0] then 1 else 0) + OnesIn(s[1..])
  }

  /** Unstuffing takes no one out of any bit string, stuffed or not. */
  lemma {:induction false} UnstuffedKeepsOnes(s: Bits, count: nat)
    ensures OnesIn(Unstuffed(s, count)) == OnesIn(s)
    decreases |s|
  {
    if s != [] {
      if s[0] && count + 1 == 5 && |s| > 1 && !s[1] {
        UnstuffedKeepsOnes(s[2..], 0);
        assert s[1..][1..] == s[2..];
      } else {
        UnstuffedKeepsOnes(s[1..], if !s[0] || count + 1 == 5 then 0 else count + 1);
      }
    }
  }

  /** Reading s after count ones never sees a sixth one in a row. */
  ghost predicate NoSixOnes(s: Bits, count: nat) {
    s == [] || if s[0] then count + 1 < 6 && NoSixOnes(s[1..], count + 1) else NoSixOnes(s[1..], 0)
  }

  lemma {:induction false} StuffedHasNoSixOnes(data: Bits, count: nat)
    requires count < 5
    ensures NoSixOnes(Stuffed(data, count), count)
  {
    if data != [] {
      var count' := if !data[0] || count + 1 == 5 then 0 else count + 1;
      var rest, s := Stuffed(data[1..], count'), Stuffed(data, count);
      StuffedHasNoSixOnes(data[1..], count');
      if data[0] && count + 1 == 5 {
        assert s[1..] == [false] + rest && s[1..][1..] == rest;
      } else {
        assert s[1..] == rest;
      }
    }
  }

  lemma {:induction false} LeadingOnes(s: Bits, count: nat, m: nat)
    requires m <= |s| && NoSixOnes(s, count) && OnesAt(s, 0, m) && count < 6
    ensures count + m < 6
    decreases m
  {
    if m > 0 {
      assert s[0];
      assert OnesAt(s[1..], 0, m - 1) by {
        assert forall k :: 0 <= k < m - 1 ==> s[1..][k] == s[k + 1];
      }
      LeadingOnes(s[1..], count + 1, m - 1);
    }
  }

  lemma {:induction false} NoSixOnesAnywhere(s: Bits, count: nat, a: nat)
    requires a + 6 <= |s| && NoSixOnes(s, count) && count < 6
    ensures !OnesAt(s, a, 6)
    decreases a
  {
    if a == 0 {
      if OnesAt(s, 0, 6) {
        LeadingOnes(s, count, 6);
      }
    } else {
      NoSixOnesAnywhere(s[1..], if s[0] then count + 1 else 0, a - 1);
      assert forall k :: 0 <= k < |s| - 1 ==> s[1..][k] == s[k + 1];
    }
  }

  lemma FlagBits(f: Bits, i: nat)
    requires i + 8 <= |f| && f[i..i + 8] == FLAG
    ensures OnesAt(f, i + 1, 6)
  {
    var w := f[i..i + 8];
    assert w[1] && w[2] && w[3] && w[4] && w[5] && w[6];
  }

  function Framed(data: Bits): Bits {
    FLAG + Stuffed(data, 0) + FLAG
  }

  /** The flag occurs in the frame at its two ends and nowhere else, straddling windows included. */
  lemma FlagOnlyAtEnds(data: Bits, i: nat)
    requires i + 8 <= |Framed(data)|
    ensures Framed(data)[i..i + 8] == FLAG <==> i == 0 || i == |Framed(data)| - 8
  {
    var f, s := Framed(data), Stuffed(data, 0);
    if 7 <= i && i <= |s| + 1 {
      NotInside(data, i);
    }
    if f[i..i + 8] == FLAG {
      FlagBits(f, i);
      assert !f[0] && !f[7] && !f[8 + |s|] && !f[15 + |s|];
    }
  }

  /** No six ones in a row between the two flags. */
  lemma NotInside(data: Bits, i: nat)
    requires 7 <= i <= |Stuffed(data, 0)| + 1
    ensures !OnesAt(Framed(data), i + 1, 6)
  {
    var f, s := Framed(data), Stuffed(data, 0);
    assert forall k :: 0 <= k < |s| ==> s[k] == f[8 + k];
    StuffedHasNoSixOnes(data, 0);
    NoSixOnesAnywhere(s, 0, i - 7);
  }
}
