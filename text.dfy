/**
 * The string operations the engine relies on, stated on `seq<char>`: ASCII digit classes
 * (the `\d` of its regular expressions), `String.prototype.split` and `Array.prototype.join`
 * on the separator `", "`, `trim`, `Number.prototype.toString` on integers and
 * `padStart(2, '0')`.
 */
module Text {

  predicate IsDigit(c: char) {
    '0' <= c <= '9'
  }

  function DigitValue(c: char): (d: int)
    requires IsDigit(c)
    ensures 0 <= d <= 9
  {
    c as int - '0' as int
  }

  function DigitChar(d: int): (c: char)
    requires 0 <= d <= 9
    ensures IsDigit(c) && DigitValue(c) == d
  {
    ('0' as int + d) as char
  }

  /** The value of two adjacent decimal digits, as `parseInt` reads them. */
  function TwoDigitValue(hi: char, lo: char): (n: int)
    requires IsDigit(hi) && IsDigit(lo)
    ensures 0 <= n <= 99
  {
    DigitValue(hi) * 10 + DigitValue(lo)
  }

  /** Two digits are written back from the value they read as. */
  lemma TwoDigitChars(hi: char, lo: char)
    requires IsDigit(hi) && IsDigit(lo)
    ensures DigitChar(TwoDigitValue(hi, lo) / 10) == hi && DigitChar(TwoDigitValue(hi, lo) % 10) == lo
  {
  }

  /** The characters JavaScript's `trim` removes: white space and line terminators. */
  predicate IsJsSpace(c: char) {
    c == ' ' || c == '\t' || c == '\n' || c == '\r' || c == '\U{000B}' || c == '\U{000C}'
    || c == '\U{00A0}' || c == '\U{1680}' || ('\U{2000}' <= c <= '\U{200A}')
    || c == '\U{2028}' || c == '\U{2029}' || c == '\U{202F}' || c == '\U{205F}'
    || c == '\U{3000}' || c == '\U{FEFF}'
  }

  function TrimStart(s: string): (r: string)
    ensures |r| <= |s| && r == s[|s| - |r|..]
    ensures r == [] || !IsJsSpace(r[0])
    ensures forall i :: 0 <= i < |s| - |r| ==> IsJsSpace(s[i])
  {
    if s != [] && IsJsSpace(s[0]) then TrimStart(s[1..]) else s
  }

  function TrimEnd(s: string): (r: string)
    ensures |r| <= |s| && r == s[..|r|]
    ensures r == [] || !IsJsSpace(r[|r| - 1])
    ensures forall i :: |r| <= i < |s| ==> IsJsSpace(s[i])
  {
    if s != [] && IsJsSpace(s[|s| - 1]) then TrimEnd(s[..|s| - 1]) else s
  }

  /** `String.prototype.trim`. */
  function Trim(s: string): (r: string)
    ensures |r| <= |s|
    ensures r == [] || (!IsJsSpace(r[0]) && !IsJsSpace(r[|r| - 1]))
    ensures r == [] <==> forall i :: 0 <= i < |s| ==> IsJsSpace(s[i])
  {
    var t := TrimStart(s);
    var r := TrimEnd(t);
    assert r != [] ==> r[0] == t[0];
    assert t != [] ==> r != [];
    assert t == [] ==> forall i :: 0 <= i < |s| ==> IsJsSpace(s[i]);
    assert t != [] ==> s[|s| - |t|] == t[0];
    r
  }

  /**
   * `trim` keeps exactly the middle of the text: what it removes before and after the
   * result is white space, and the result is the text between.
   */
  lemma TrimKeepsMiddle(s: string)
    ensures var i := |s| - |TrimStart(s)|;
            i + |Trim(s)| <= |s| && Trim(s) == s[i..i + |Trim(s)|]
            && (forall k :: 0 <= k < i ==> IsJsSpace(s[k]))
            && (forall k :: i + |Trim(s)| <= k < |s| ==> IsJsSpace(s[k]))
  {
    var t := TrimStart(s);
    var i := |s| - |t|;
    assert Trim(s) == TrimEnd(t);
    assert t == s[i..];
  }

  /** A string that neither starts nor ends with white space is its own trim. */
  lemma TrimUntouched(s: string)
    requires s != [] && !IsJsSpace(s[0]) && !IsJsSpace(s[|s| - 1])
    ensures Trim(s) == s
  {
  }

  /**
   * `s.split(", ")`: the pieces between the non-overlapping occurrences of the separator,
   * found left to right; a string without the separator is one piece.
   */
  function Split(s: string): (parts: seq<string>)
    ensures |parts| >= 1
    ensures |parts| == 1 ==> parts[0] == s
    ensures Join(parts) == s
  {
    if |s| < 2 then [s]
    else if s[0] == ',' && s[1] == ' ' then
      var rest := Split(s[2..]);
      JoinEmptyFirst(rest);
      assert s == ", " + s[2..];
      [""] + rest
    else
      var rest := Split(s[1..]);
      JoinGlued(s[0], rest);
      assert s == [s[0]] + s[1..];
      [[s[0]] + rest[0]] + rest[1..]
  }

  /** An empty first piece puts the separator at the front. */
  lemma JoinEmptyFirst(rest: seq<string>)
    requires rest != []
    ensures Join([""] + rest) == ", " + Join(rest)
  {
    assert ([""] + rest)[1..] == rest;
  }

  /** A character glued to the front of the first piece is at the front of the joined text. */
  lemma JoinGlued(c: char, rest: seq<string>)
    requires rest != []
    ensures Join([[c] + rest[0]] + rest[1..]) == [c] + Join(rest)
  {
    var parts := [[c] + rest[0]] + rest[1..];
    assert parts[1..] == rest[1..];
    if |rest| > 1 {
      assert [c] + (rest[0] + ", " + Join(rest[1..])) == [c] + rest[0] + ", " + Join(rest[1..]);
    }
  }

  /** No piece of a split holds the separator `", "`. */
  predicate NoSeparator(p: string) {
    forall i :: 0 <= i < |p| - 1 ==> !(p[i] == ',' && p[i + 1] == ' ')
  }

  /**
   * `split` cuts at every separator: the first piece is a prefix of the text and no piece
   * holds `", "`. With `Join(Split(s)) == s` this fixes the pieces, since `", "` cannot
   * overlap itself.
   */
  lemma {:induction false} SplitPieces(s: string)
    ensures Split(s)[0] <= s
    ensures forall k :: 0 <= k < |Split(s)| ==> NoSeparator(Split(s)[k])
    decreases |s|
  {
    if |s| >= 2 {
      if s[0] == ',' && s[1] == ' ' {
        SplitPieces(s[2..]);
        var rest := Split(s[2..]);
        forall k | 0 <= k < |Split(s)| ensures NoSeparator(Split(s)[k]) {
          if k > 0 { assert Split(s)[k] == rest[k - 1]; }
        }
      } else {
        SplitPieces(s[1..]);
        var rest := Split(s[1..]);
        var first := [s[0]] + rest[0];
        assert Split(s)[0] == first;
        assert rest[0] == s[1..][..|rest[0]|];
        assert first == s[..|first|];
        forall i | 0 <= i < |first| - 1 ensures !(first[i] == ',' && first[i + 1] == ' ') {
          if i > 0 {
            assert first[i] == rest[0][i - 1] && first[i + 1] == rest[0][i];
          } else if |rest[0]| > 0 {
            assert first[0] == s[0] && first[1] == s[1];
          }
        }
        forall k | 0 < k < |Split(s)| ensures NoSeparator(Split(s)[k]) {
          assert Split(s)[k] == rest[k];
        }
      }
    }
  }

  /** `parts.join(", ")`. */
  function Join(parts: seq<string>): (s: string)
    ensures parts == [] ==> s == []
    ensures |parts| == 1 ==> s == parts[0]
  {
    if parts == [] then []
    else if |parts| == 1 then parts[0]
    else parts[0] + ", " + Join(parts[1..])
  }

  predicate NoComma(s: string) {
    forall i :: 0 <= i < |s| ==> s[i] != ','
  }

  /** A comma-free prefix is glued to the first piece of what follows it. */
  lemma {:induction false} SplitCommaFreePrefix(p: string, tail: string)
    requires NoComma(p)
    ensures Split(p + tail) == [p + Split(tail)[0]] + Split(tail)[1..]
    decreases |p|
  {
    if p != [] {
      var s := p + tail;
      assert s[0] == p[0];
      if |s| >= 2 {
        assert s[1..] == p[1..] + tail;
        SplitCommaFreePrefix(p[1..], tail);
        var rest := Split(s[1..]);
        assert rest[0] == p[1..] + Split(tail)[0] && rest[1..] == Split(tail)[1..];
        assert [p[0]] + rest[0] == p + Split(tail)[0];
      } else {
        assert tail == [] && p == s;
      }
    } else {
      var parts := Split(tail);
      assert p + tail == tail && p + parts[0] == parts[0];
      assert parts == [parts[0]] + parts[1..];
    }
  }

  /** Splitting undoes joining when no piece contains a comma. */
  lemma {:induction false} SplitJoin(parts: seq<string>)
    requires parts != []
    requires forall k :: 0 <= k < |parts| ==> NoComma(parts[k])
    ensures Split(Join(parts)) == parts
    decreases |parts|
  {
    if |parts| > 1 {
      var rest := Join(parts[1..]);
      var tail := ", " + rest;
      assert Join(parts) == parts[0] + tail;
      SplitCommaFreePrefix(parts[0], tail);
      assert tail[2..] == rest;
      SplitJoin(parts[1..]);
      assert tail[0] == ',' && tail[1] == ' ';
      assert Split(tail) == [""] + parts[1..];
      assert Split(tail)[0] == "" && Split(tail)[1..] == parts[1..];
      assert parts[0] + "" == parts[0];
      assert parts == [parts[0]] + parts[1..];
    } else {
      SplitCommaFreePrefix(parts[0], []);
      assert parts[0] + [] == parts[0];
    }
  }

  /** Decimal digits of a natural number, most significant first. */
  function NatToDecimal(n: nat): (s: string)
    ensures |s| >= 1
    ensures forall i :: 0 <= i < |s| ==> IsDigit(s[i])
    ensures s[0] == '0' ==> n == 0
    decreases n
  {
    if n < 10 then [DigitChar(n)] else NatToDecimal(n / 10) + [DigitChar(n % 10)]
  }

  /** `Number.prototype.toString()` on an integer. */
  function IntToString(n: int): (s: string)
    ensures |s| >= 1
    ensures s[0] == '-' <==> n < 0
    ensures forall i :: (if n < 0 then 1 else 0) <= i < |s| ==> IsDigit(s[i])
  {
    if n < 0 then "-" + NatToDecimal(-n) else NatToDecimal(n)
  }

  /** `padStart(2, '0')`. */
  function PadTwo(s: string): (r: string)
    ensures |s| >= 2 ==> r == s
    ensures |s| == 1 ==> r == ['0'] + s
    ensures s == [] ==> r == "00"
    decreases 2 - |s|
  {
    if |s| >= 2 then s else PadTwo(['0'] + s)
  }

  /** A number below 100 is written as exactly two decimal digits. */
  lemma TwoDigits(n: int)
    requires 0 <= n <= 99
    ensures PadTwo(IntToString(n)) == [DigitChar(n / 10), DigitChar(n % 10)]
  {
    if n >= 10 {
      assert NatToDecimal(n) == [DigitChar(n / 10)] + [DigitChar(n % 10)];
    }
  }
}
