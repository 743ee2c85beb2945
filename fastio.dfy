/** FastIO: buffered output to a file descriptor through a fixed 64 KiB
    buffer, with writers for text, reversed text and integers. Integers
    are written in lower-case hexadecimal without leading zeros. What the
    descriptor has received so far is the field written; Output() is
    everything put so far, flushed or not. */
module FastOutput {
  import Sequences
  const SIZE: nat := 64 * 1024

  /** The lower-case hexadecimal digit of d < 16. */
  function Digit(d: nat): (c: char)
    requires d < 16
    ensures c in "0123456789abcdef"
  {
    if d >= 10 then 'a' + (d - 10) as char else '0' + d as char
  }

  /** The value of a hexadecimal digit. */
  function DigitValue(c: char): (d: nat)
    ensures d < 16
  {
    if 'a' <= c <= 'f' then (c - 'a') as nat + 10
    else if '0' <= c <= '9' then (c - '0') as nat
    else 0
  }

  lemma DigitRoundTrip(d: nat)
    requires d < 16
    ensures DigitValue(Digit(d)) == d
  {
  }

  /** The digits of v, most significant first, none for 0. */
  function Digits(v: nat): seq<char>
  {
    if v == 0 then [] else Digits(v / 16) + [Digit(v % 16)]
  }

  /** What the integer writers write for a magnitude: "0" for zero. */
  function HexText(v: nat): seq<char>
  {
    if v == 0 then "0" else Digits(v)
  }

  /** The value of hexadecimal text. */
  function HexValue(s: seq<char>): nat
  {
    if s == [] then 0 else HexValue(s[..|s| - 1]) * 16 + DigitValue(s[|s| - 1])
  }

  lemma {:induction false} DigitsRoundTrip(v: nat)
    ensures HexValue(Digits(v)) == v
    ensures forall i :: 0 <= i < |Digits(v)| ==> Digits(v)[i] in "0123456789abcdef"
    ensures v > 0 ==> |Digits(v)| > 0 && Digits(v)[0] != '0'
    decreases v
  {
    if v > 0 {
      DigitsRoundTrip(v / 16);
      var s := Digits(v);
      assert s[..|s| - 1] == Digits(v / 16);
      DigitRoundTrip(v % 16);
      if v / 16 == 0 {
        assert s == [Digit(v % 16)];
      }
    }
  }

  /** The integer text reads back as its value, uses only lower-case
      hexadecimal digits and has no leading zero except for zero itself. */
  lemma HexTextRoundTrip(v: nat)
    ensures HexValue(HexText(v)) == v
    ensures forall i :: 0 <= i < |HexText(v)| ==> HexText(v)[i] in "0123456789abcdef"
    ensures |HexText(v)| > 0 && (HexText(v)[0] == '0' <==> v == 0)
  {
    DigitsRoundTrip(v);
  }

  /** A decimal-looking value comes out in hexadecimal. */
  lemma HexExample()
    ensures HexText(255) == "ff" && HexText(16) == "10" && HexText(0) == "0"
  {
    DigitsOfByte(15, 15, 255, 'f', 'f');
    DigitsOfByte(1, 0, 16, '1', '0');
  }

  /** The two digits of v = 16 * h + l for nonzero h. */
  lemma DigitsOfByte(h: nat, l: nat, v: nat, ch: char, cl: char)
    requires 0 < h < 16 && l < 16 && v == 16 * h + l && Digit(h) == ch && Digit(l) == cl
    ensures HexText(v) == [ch, cl]
  {
    assert v / 16 == h && v % 16 == l;
    assert h / 16 == 0 && h % 16 == h;
    assert Digits(h) == [ch];
    assert Digits(v) == Digits(h) + [cl];
  }

  function Pow16(k: nat): (p: nat)
    ensures p >= 1
  {
    if k == 0 then 1 else 16 * Pow16(k - 1)
  }

  /** A value below 16^k has at most k digits. */
  lemma {:induction false} DigitsBound(v: nat, k: nat)
    requires v < Pow16(k)
    ensures |Digits(v)| <= k
  {
    if v > 0 {
      DigitsBound(v / 16, k - 1);
    }
  }

  function Reverse(s: seq<char>): (r: seq<char>)
    ensures |r| == |s|
  {
    seq(|s|, i requires 0 <= i < |s| => s[|s| - 1 - i])
  }

  lemma ReverseSnoc(s: seq<char>, c: char)
    ensures Reverse(s + [c]) == [c] + Reverse(s)
  {
  }

  lemma ReverseReverse(s: seq<char>)
    ensures Reverse(Reverse(s)) == s
  {
  }

  /** The text put(long long) writes: a '-' before the magnitude of a
      negative value. */
  function SignedText(v: int): (r: seq<char>)
  {
    if v < 0 then "-" + HexText(-v) else HexText(v)
  }

  /** The text put(void *) writes. */
  function PointerText(p: nat): seq<char>
  {
    "0x" + HexText(p)
  }

  lemma SignedTextMeaning(v: int)
    ensures v < 0 ==> SignedText(v)[0] == '-' && HexValue(SignedText(v)[1..]) == -v
    ensures v >= 0 ==> HexValue(SignedText(v)) == v && '-' !in SignedText(v)
  {
    HexTextRoundTrip(if v < 0 then -v else v);
  }

  lemma PointerTextMeaning(p: nat)
    ensures PointerText(p)[..2] == "0x" && HexValue(PointerText(p)[2..]) == p
  {
    HexTextRoundTrip(p);
    assert PointerText(p)[2..] == HexText(p);
  }

  class FastIO {
    const buf: array<char>
    var pos: nat
    /** What has been written to the descriptor. */
    var written: seq<char>

    ghost predicate Valid()
      reads this
    {
      buf.Length == SIZE && pos <= SIZE
    }

    function Output(): seq<char>
      reads this, buf
      requires Valid()
    {
      written + buf[..pos]
    }

    constructor()
      ensures Valid() && fresh(buf) && pos == 0 && written == []
    {
      buf := new char[SIZE](_ => ' ');
      pos := 0;
      written := [];
    }

    /** flush: everything buffered goes to the descriptor. */
    method Flush()
      requires Valid()
      modifies this
      ensures Valid() && pos == 0 && written == old(Output())
    {
      written := written + buf[..pos];
      pos := 0;
    }

    /** put_fast: appends s, which fits the buffer, flushing first only
        when the room left is less than its length. */
    method PutFast(s: seq<char>)
      requires Valid() && |s| <= SIZE
      modifies this, buf
      ensures Valid() && Output() == old(Output()) + s
      ensures SIZE - old(pos) < |s| ==> written == old(Output()) && pos == |s|
      ensures SIZE - old(pos) >= |s| ==> written == old(written) && pos == old(pos) + |s|
    {
      if SIZE - pos < |s| {
        Flush();
      }
      forall i | 0 <= i < |s| {
        buf[pos + i] := s[i];
      }
      assert buf[..pos + |s|] == old(Output())[|written|..] + s;
      pos := pos + |s|;
    }

    /** put_fast_rev: appends s reversed, copying from its last
        character down. */
    method PutFastRev(s: seq<char>)
      requires Valid() && |s| <= SIZE
      modifies this, buf
      ensures Valid() && Output() == old(Output()) + Reverse(s)
      ensures SIZE - old(pos) < |s| ==> written == old(Output()) && pos == |s|
      ensures SIZE - old(pos) >= |s| ==> written == old(written) && pos == old(pos) + |s|
    {
      if SIZE - pos < |s| {
        Flush();
      }
      ghost var before := buf[..pos];
      ghost var start := pos;
      var len := |s|;
      while len > 0
        invariant 0 <= len <= |s| && pos == start + (|s| - len) && pos <= SIZE
        invariant buf[..pos] == before + Reverse(s)[..|s| - len]
        invariant written == old(written) || written == old(Output())
        invariant start + |s| <= SIZE
        invariant before == old(Output())[|written|..]
      {
        len := len - 1;
        buf[pos] := s[len];
        assert Reverse(s)[..|s| - len] == Reverse(s)[..|s| - len - 1] + [s[len]];
        pos := pos + 1;
      }
      assert Reverse(s)[..|s|] == Reverse(s);
    }

    /** put(s, len): appends text of any length in chunks that fill the
        buffer, flushing whenever it is full. */
    method Put(s: seq<char>)
      requires Valid()
      modifies this, buf
      ensures Valid() && Output() == old(Output()) + s
      ensures |s| > 0 ==> pos < SIZE
    {
      var done := 0;
      while done < |s|
        invariant Valid() && done <= |s|
        invariant Output() == old(Output()) + s[..done]
        invariant done > 0 ==> pos < SIZE
        decreases 2 * (|s| - done) + (if pos == SIZE then 1 else 0)
      {
        var next := PutChunk(s, done);
        assert s[..next] == s[..done] + s[done..next];
        done := next;
      }
      assert s[..done] == s;
    }

    /** One round of put(s, len): as much of the rest as fits, then a
        flush if that filled the buffer. */
    method PutChunk(s: seq<char>, done: nat) returns (done': nat)
      requires Valid() && done < |s|
      modifies this, buf
      ensures Valid() && ((done < done' <= |s|) || (done' == done && old(pos) == SIZE))
      ensures done' <= |s| && Output() == old(Output()) + s[done..done']
      ensures pos < SIZE
    {
      var n := if |s| - done < SIZE - pos then |s| - done else SIZE - pos;
      ghost var out := Output();
      forall i | 0 <= i < n {
        buf[pos + i] := s[done + i];
      }
      assert buf[..pos + n] == out[|written|..] + s[done..done + n];
      pos := pos + n;
      done' := done + n;
      if pos == SIZE {
        Flush();
      }
    }

    /** put(unsigned long long): the value in hexadecimal. The digits are
        produced least significant first and written reversed. */
    method PutUnsigned(val: nat)
      requires Valid() && val < 0x1_0000_0000_0000_0000
      modifies this, buf
      ensures Valid() && Output() == old(Output()) + HexText(val)
    {
      var digits := Reversed(val);
      ReverseReverse(digits);
      PutFastRev(digits);
    }

    /** put(long long): a negative value's magnitude after its sign. */
    method PutSigned(val: int)
      requires Valid() && -0x8000_0000_0000_0000 <= val < 0x8000_0000_0000_0000
      modifies this, buf
      ensures Valid() && Output() == old(Output()) + SignedText(val)
    {
      var digits := Reversed(if val < 0 then -val else val);
      if val < 0 {
        digits := digits + ['-'];
      }
      ReverseReverse(digits);
      PutFastRev(digits);
    }

    /** put(void *): the address in hexadecimal after "0x". */
    method PutPointer(ptr: nat)
      requires Valid() && ptr < 0x1_0000_0000_0000_0000
      modifies this, buf
      ensures Valid() && Output() == old(Output()) + PointerText(ptr)
    {
      var digits := Reversed(ptr);
      digits := digits + ['x', '0'];
      ReverseReverse(digits);
      PutFastRev(digits);
    }
  }

  lemma Pow16Of16()
    ensures Pow16(16) == 0x1_0000_0000_0000_0000
  {
    assert Pow16(4) == 0x1_0000;
    assert Pow16(8) == 16 * 16 * 16 * 16 * Pow16(4);
    assert Pow16(12) == 16 * 16 * 16 * 16 * Pow16(8);
    assert Pow16(16) == 16 * 16 * 16 * 16 * Pow16(12);
  }

  /** The digit loop shared by the integer writers: the text of v, least
      significant digit first. */
  method Reversed(v: nat) returns (digits: seq<char>)
    requires v < 0x1_0000_0000_0000_0000
    ensures Reverse(digits) == HexText(v) && |digits| <= 16
  {
    Pow16Of16();
    DigitsBound(v, 16);
    if v == 0 {
      return ['0'];
    }
    digits := [];
    var val := v;
    while val != 0
      invariant Digits(val) + Reverse(digits) == Digits(v)
    {
      DigitStep(val, digits, v);
      digits := digits + [Digit(val % 16)];
      val := val / 16;
    }
    assert Digits(0) == [];
  }

  /** One turn of the digit loop keeps the digits still to write, followed
      by those written, equal to the text. */
  lemma DigitStep(val: nat, digits: seq<char>, v: nat)
    requires val != 0 && Digits(val) + Reverse(digits) == Digits(v)
    ensures Digits(val / 16) + Reverse(digits + [Digit(val % 16)]) == Digits(v)
  {
    var c := Digit(val % 16);
    ReverseSnoc(digits, c);
    assert Digits(val) == Digits(val / 16) + [c];
    Sequences.AppendAssoc(Digits(val / 16), [c], Reverse(digits));
  }
}
