/** The text form of a stored block: the decimal id followed by the color
    token (`"7#3cc7d6"`), and the two getters that split it at `#` again. */
module BlockValue {

  predicate IsDigit(ch: char)
  {
    '0' <= ch <= '9'
  }

  predicate AllDigits(s: string)
  {
    forall i :: 0 <= i < |s| ==> IsDigit(s[i])
  }

  function DigitChar(d: nat): (ch: char)
    requires d < 10
    ensures IsDigit(ch)
  {
    ('0' as int + d) as char
  }

  function DigitValue(ch: char): nat
    requires IsDigit(ch)
  {
    ch as int - '0' as int
  }

  /** The decimal text of a non-negative integer, as a number turns into a
      string when concatenated with one. */
  function Decimal(n: nat): (s: string)
    ensures |s| >= 1 && AllDigits(s)
  {
    if n < 10 then [DigitChar(n)] else Decimal(n / 10) + [DigitChar(n % 10)]
  }

  /** Reads a digit string back as a number. */
  function ParseDecimal(s: string): nat
    requires AllDigits(s)
  {
    if s == [] then 0 else ParseDecimal(s[..|s| - 1]) * 10 + DigitValue(s[|s| - 1])
  }

  lemma {:induction false} ParseDecimalOfDecimal(n: nat)
    ensures ParseDecimal(Decimal(n)) == n
  {
    var s := Decimal(n);
    if n >= 10 {
      ParseDecimalOfDecimal(n / 10);
      assert s[..|s| - 1] == Decimal(n / 10);
    }
  }

  /** A palette color: `#` followed by characters other than `#`. */
  predicate IsColorToken(color: string)
  {
    |color| >= 1 && color[0] == '#' && '#' !in color[1..]
  }

  /** The stored value of a block: `++blockCount + tetrimino.props.color`.
      With a palette color the id's digits end exactly at the first `#`. */
  function Encode(id: nat, color: string): (v: string)
    ensures |v| == |Decimal(id)| + |color|
    ensures '#' !in v[..|Decimal(id)|]
    ensures IsColorToken(color) ==> v[|Decimal(id)|] == '#'
  {
    var d := Decimal(id);
    assert (d + color)[..|d|] == d;
    d + color
  }

  /** Glues parts back together with `sep` between neighbours. */
  function Join(parts: seq<string>, sep: char): string
    requires |parts| >= 1
  {
    if |parts| == 1 then parts[0] else parts[0] + [sep] + Join(parts[1..], sep)
  }

  /** Splitting at every occurrence of `sep`: the pieces between separators,
      an empty piece where two separators meet or at either end. */
  function Split(s: string, sep: char): (parts: seq<string>)
    ensures |parts| >= 1
    ensures forall i :: 0 <= i < |parts| ==> sep !in parts[i]
  {
    if s == [] then [[]]
    else
      var rest := Split(s[1..], sep);
      if s[0] == sep then [[]] + rest else [[s[0]] + rest[0]] + rest[1..]
  }

  /** Joining the pieces with the separator gives the text back. */
  lemma {:induction false} JoinSplit(s: string, sep: char)
    ensures Join(Split(s, sep), sep) == s
  {
    if s != [] {
      var rest := Split(s[1..], sep);
      JoinSplit(s[1..], sep);
      if s[0] == sep {
        assert ([[]] + rest)[1..] == rest;
        assert s == [sep] + s[1..];
      } else {
        var parts := [[s[0]] + rest[0]] + rest[1..];
        if |rest| == 1 {
          assert s == [s[0]] + rest[0];
        } else {
          assert parts[1..] == rest[1..];
          assert Join(rest, sep) == rest[0] + [sep] + Join(rest[1..], sep);
          assert s == [s[0]] + s[1..];
        }
      }
    }
  }

  /** The first piece of a join is a prefix of it, followed by the separator
      when there are more pieces. */
  lemma JoinPrefix(parts: seq<string>, sep: char)
    requires |parts| >= 1
    ensures parts[0] <= Join(parts, sep)
    ensures |parts| == 1 ==> Join(parts, sep) == parts[0]
    ensures |parts| >= 2 ==> |parts[0]| < |Join(parts, sep)| && Join(parts, sep)[|parts[0]|] == sep &&
                             Join(parts, sep)[|parts[0]| + 1..] == Join(parts[1..], sep)
  {
    if |parts| >= 2 {
      var j := Join(parts, sep);
      assert j == parts[0] + ([sep] + Join(parts[1..], sep));
      assert j[..|parts[0]|] == parts[0];
    }
  }

  /** `s.split('#')[0]`: everything before the first `#`. */
  function IdFromBlockValue(blockValue: string): (id: string)
    ensures id <= blockValue && '#' !in id
    ensures |id| < |blockValue| ==> blockValue[|id|] == '#'
  {
    var parts := Split(blockValue, '#');
    JoinSplit(blockValue, '#');
    JoinPrefix(parts, '#');
    parts[0]
  }

  /** `'#' + s.split('#')[1]`: the text between the first and the second `#`
      with a `#` put back in front; without any `#` the missing piece turns
      into the text `undefined`. */
  function ColorFromBlockValue(blockValue: string): (color: string)
    ensures '#' !in blockValue ==> color == "#undefined"
    ensures '#' in blockValue ==>
      var rest := blockValue[|IdFromBlockValue(blockValue)| + 1..];
      && |color| >= 1 && color[0] == '#' && '#' !in color[1..]
      && color[1..] <= rest && (|color| - 1 < |rest| ==> rest[|color| - 1] == '#')
  {
    var parts := Split(blockValue, '#');
    JoinSplit(blockValue, '#');
    JoinPrefix(parts, '#');
    if |parts| >= 2 then
      JoinPrefix(parts[1..], '#');
      assert parts[1..][1..] == parts[2..];
      "#" + parts[1]
    else
      "#undefined"
  }

  // ---------------------------------------------------------------------
  // Round trips

  /** Splitting a word free of `sep` in front of `t` extends only the first piece. */
  lemma {:induction false} SplitAfterWord(w: string, t: string, sep: char)
    requires sep !in w
    ensures Split(w + t, sep) == [w + Split(t, sep)[0]] + Split(t, sep)[1..]
  {
    if w != [] {
      SplitAfterWord(w[1..], t, sep);
      assert (w + t)[1..] == w[1..] + t;
      assert (w + t)[0] == w[0];
      assert [w[0]] + (w[1..] + Split(t, sep)[0]) == w + Split(t, sep)[0];
    } else {
      var parts := Split(t, sep);
      assert w + t == t && w + parts[0] == parts[0];
      assert [parts[0]] + parts[1..] == parts;
    }
  }

  /** A leading separator splits off an empty first piece. */
  lemma SplitAfterSep(t: string, sep: char)
    ensures Split([sep] + t, sep) == [[]] + Split(t, sep)
  {
    assert ([sep] + t)[1..] == t;
  }

  /** Splitting undoes joining whenever no part contains the separator. */
  lemma {:induction false} SplitJoin(parts: seq<string>, sep: char)
    requires |parts| >= 1
    requires forall i :: 0 <= i < |parts| ==> sep !in parts[i]
    ensures Split(Join(parts, sep), sep) == parts
  {
    var head := parts[0];
    if |parts| == 1 {
      SplitAfterWord(head, [], sep);
      assert head + [] == head;
    } else {
      var rest := parts[1..];
      var tail := Join(rest, sep);
      SplitJoin(rest, sep);
      SplitAfterSep(tail, sep);
      SplitAfterWord(head, [sep] + tail, sep);
      assert Join(parts, sep) == head + [sep] + tail == head + ([sep] + tail);
      assert head + [] == head && [head] + rest == parts;
    }
  }

  /** A stored block value splits back into the decimal id and the color it
      was built from, and the id text reads back as the id. */
  lemma EncodeRoundTrip(id: nat, color: string)
    requires IsColorToken(color)
    ensures IdFromBlockValue(Encode(id, color)) == Decimal(id)
    ensures ColorFromBlockValue(Encode(id, color)) == color
    ensures ParseDecimal(IdFromBlockValue(Encode(id, color))) == id
  {
    var d := Decimal(id);
    assert '#' !in d;
    var parts := [d, color[1..]];
    assert Join(parts, '#') == d + ['#'] + color[1..];
    assert d + ['#'] + color[1..] == Encode(id, color) by {
      assert color == [color[0]] + color[1..];
    }
    SplitJoin(parts, '#');
    ParseDecimalOfDecimal(id);
    assert "#" + color[1..] == color by {
      assert color == [color[0]] + color[1..];
    }
  }

  /** A value without any `#` is its own id text, and its color reads as
      `#undefined`. */
  lemma NoHashValue(blockValue: string)
    requires '#' !in blockValue
    ensures IdFromBlockValue(blockValue) == blockValue
    ensures ColorFromBlockValue(blockValue) == "#undefined"
  {
    SplitAfterWord(blockValue, [], '#');
    assert blockValue + [] == blockValue;
  }

  /** Different ids give different render keys when both colors are palette
      tokens (without that, `7` with `1#x` and `71` with `#x` collide). */
  lemma KeysDistinct(id1: nat, color1: string, id2: nat, color2: string)
    requires IsColorToken(color1) && IsColorToken(color2)
    requires id1 != id2
    ensures IdFromBlockValue(Encode(id1, color1)) != IdFromBlockValue(Encode(id2, color2))
  {
    EncodeRoundTrip(id1, color1);
    EncodeRoundTrip(id2, color2);
  }

  /** Without palette colors different ids can share a key: `7` stored with
      `1#x` and `71` stored with `#x` are both the value `71#x`. */
  lemma KeysCollideWithoutPalette()
    ensures Encode(7, "1#x") == Encode(71, "#x")
    ensures IdFromBlockValue(Encode(7, "1#x")) == IdFromBlockValue(Encode(71, "#x"))
  {
    assert Decimal(7) == "7";
    assert Decimal(71) == Decimal(7) + [DigitChar(1)] == "71";
  }
}
