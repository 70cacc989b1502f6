/** The text form of a spreading key, as written by `write_key_to_file` and
    read back by `read_key_from_file`: the `i16` entries in decimal, joined
    by commas with no trailing separator. Reading takes the first line of the
    text, trims surrounding whitespace, splits it at every comma and parses
    every token as an `i16` literal. */
module KeyCodec {
  import opened Wrappers
  import opened Numeric

  datatype KeyError = KeyParseError

  predicate IsDigit(c: char)
  {
    '0' <= c <= '9'
  }

  predicate AllDigits(s: string)
  {
    forall i :: 0 <= i < |s| ==> IsDigit(s[i])
  }

  /** `char::is_whitespace`: the characters with the Unicode White_Space
      property. */
  predicate IsWhitespace(c: char)
  {
    var x := c as int;
    || 0x09 <= x <= 0x0D || x == 0x20 || x == 0x85 || x == 0xA0 || x == 0x1680
    || 0x2000 <= x <= 0x200A || x == 0x2028 || x == 0x2029 || x == 0x202F
    || x == 0x205F || x == 0x3000
  }

  function DigitChar(d: nat): (c: char)
    requires d < 10
  {
    "0123456789"[d]
  }

  function DigitValue(c: char): nat
    requires IsDigit(c)
  {
    c as int - '0' as int
  }

  /** The value of a string of decimal digits, most significant first. */
  function DecimalValue(s: string): nat
    requires AllDigits(s)
  {
    if |s| == 0 then 0 else 10 * DecimalValue(s[..|s| - 1]) + DigitValue(s[|s| - 1])
  }

  /** The decimal digits of `v`, without leading zeros. */
  function NatToDecimal(v: nat): (s: string)
    ensures 1 <= |s| && AllDigits(s)
    ensures DecimalValue(s) == v
    ensures |s| == 1 || s[0] != '0'
  {
    if v < 10 then [DigitChar(v)]
    else
      var high := NatToDecimal(v / 10);
      assert (high + [DigitChar(v % 10)])[..|high|] == high;
      high + [DigitChar(v % 10)]
  }

  /** `Display` of an integer: a minus sign for negative values, then the
      digits of the magnitude. */
  function IntToDecimal(x: int): (s: string)
    ensures 1 <= |s|
    ensures forall i :: 0 <= i < |s| ==> IsDigit(s[i]) || (i == 0 && s[i] == '-' && 1 < |s|)
    ensures x < 0 <==> s[0] == '-'
    ensures x < 0 ==> AllDigits(s[1..]) && DecimalValue(s[1..]) == -x
    ensures x >= 0 ==> AllDigits(s) && DecimalValue(s) == x
    ensures x < 0 ==> s[1..] == NatToDecimal(-x)
    ensures x >= 0 ==> s == NatToDecimal(x)
  {
    if x < 0 then "-" + NatToDecimal(-x) else NatToDecimal(x)
  }

  /** `str::parse::<i16>`: an optional `+` or `-`, then one or more ASCII
      digits, whose signed value fits in 16 bits. */
  function ParseI16(token: string): (r: Result<I16, KeyError>)
    ensures |token| == 0 ==> r.Failure?
    ensures r.Success? ==> forall i :: 0 <= i < |token| ==>
              IsDigit(token[i]) || (i == 0 && (token[i] == '+' || token[i] == '-') && 1 < |token|)
    ensures r.Success? && token[0] == '-' ==> r.value <= 0
    ensures r.Success? && token[0] != '-' ==> r.value >= 0
  {
    if |token| == 0 then Failure(KeyParseError)
    else
      var signed := token[0] == '+' || token[0] == '-';
      var digits := if signed then token[1..] else token;
      if |digits| == 0 || !AllDigits(digits) then Failure(KeyParseError)
      else
        var magnitude: int := DecimalValue(digits);
        var v := if token[0] == '-' then -magnitude else magnitude;
        if -32768 <= v <= 32767 then Success(v) else Failure(KeyParseError)
  }

  /** The number of occurrences of `c` in `s`. */
  function CountChar(s: string, c: char): nat
  {
    if |s| == 0 then 0 else (if s[0] == c then 1 else 0) + CountChar(s[1..], c)
  }

  /** `parts` joined with the separator between consecutive parts. */
  function Join(parts: seq<string>, sep: char): string
    requires 1 <= |parts|
  {
    if |parts| == 1 then parts[0] else parts[0] + [sep] + Join(parts[1..], sep)
  }

  /** `str::split` on one character: the maximal separator-free pieces
      between separators, empty pieces included. */
  function Split(s: string, sep: char): (parts: seq<string>)
    ensures |parts| == CountChar(s, sep) + 1
    ensures forall k :: 0 <= k < |parts| ==> sep !in parts[k]
    ensures Join(parts, sep) == s
  {
    if |s| == 0 then [""]
    else
      var rest := Split(s[1..], sep);
      if s[0] == sep then
        assert s == [sep] + s[1..];
        [""] + rest
      else
        var parts := [[s[0]] + rest[0]] + rest[1..];
        assert parts[1..] == rest[1..];
        assert s == [s[0]] + s[1..];
        parts
  }

  /** `BufRead::read_line`: the text up to and including the first line
      feed, or all of it when there is none. */
  function FirstLine(text: string): (line: string)
    ensures |line| <= |text| && line == text[..|line|]
    ensures forall i :: 0 <= i < |line| - 1 ==> line[i] != '\n'
    ensures line == text || (0 < |line| && line[|line| - 1] == '\n')
  {
    if |text| == 0 then ""
    else if text[0] == '\n' then "\n"
    else
      var rest := FirstLine(text[1..]);
      assert [text[0]] + rest == text[..|rest| + 1];
      [text[0]] + rest
  }

  /** The text without its leading whitespace. */
  function TrimStart(s: string): (r: string)
    ensures |r| <= |s| && r == s[|s| - |r|..]
    ensures forall i :: 0 <= i < |s| - |r| ==> IsWhitespace(s[i])
    ensures |r| == 0 || !IsWhitespace(r[0])
  {
    if |s| > 0 && IsWhitespace(s[0]) then TrimStart(s[1..]) else s
  }

  /** The text without its trailing whitespace. */
  function TrimEnd(s: string): (r: string)
    ensures |r| <= |s| && r == s[..|r|]
    ensures forall i :: |r| <= i < |s| ==> IsWhitespace(s[i])
    ensures |r| == 0 || !IsWhitespace(r[|r| - 1])
  {
    if |s| > 0 && IsWhitespace(s[|s| - 1]) then TrimEnd(s[..|s| - 1]) else s
  }

  /** `r` is the slice of `s` starting at `a`, and everything around it is
      whitespace. */
  predicate TrimmedAt(s: string, r: string, a: int)
  {
    && 0 <= a <= |s| - |r|
    && r == s[a..a + |r|]
    && (forall i :: 0 <= i < a ==> IsWhitespace(s[i]))
    && (forall i :: a + |r| <= i < |s| ==> IsWhitespace(s[i]))
  }

  /** Whitespace dropped from the front of `s` to leave `t`, then from the
      back of `t` to leave `r`, leaves `r` trimmed out of `s` at `|s| - |t|`. */
  lemma TrimmedTwice(s: string, t: string, r: string)
    requires |t| <= |s| && t == s[|s| - |t|..]
    requires forall i :: 0 <= i < |s| - |t| ==> IsWhitespace(s[i])
    requires |r| <= |t| && r == t[..|r|]
    requires forall i :: |r| <= i < |t| ==> IsWhitespace(t[i])
    ensures TrimmedAt(s, r, |s| - |t|)
  {
    var a := |s| - |t|;
    assert r == s[a..a + |r|];
    forall i | a + |r| <= i < |s|
      ensures IsWhitespace(s[i])
    {
      assert s[i] == t[i - a];
    }
  }

  lemma TrimInfix(s: string)
    ensures TrimmedAt(s, TrimEnd(TrimStart(s)), |s| - |TrimStart(s)|)
  {
    TrimmedTwice(s, TrimStart(s), TrimEnd(TrimStart(s)));
  }

  /** `str::trim`: the text with its leading and trailing whitespace removed. */
  function Trim(s: string): (r: string)
    ensures |r| <= |s|
    ensures exists a :: TrimmedAt(s, r, a)
    ensures |r| == 0 || (!IsWhitespace(r[0]) && !IsWhitespace(r[|r| - 1]))
    ensures (forall i :: 0 <= i < |s| ==> !IsWhitespace(s[i])) ==> r == s
  {
    TrimInfix(s);
    TrimEnd(TrimStart(s))
  }

  /** `write_key_to_file`: each entry in decimal, followed by a comma unless
      it is the last. */
  function SerializeKey(key: seq<I16>): (text: string)
    ensures text == "" <==> |key| == 0
    ensures 0 < |key| ==> CountChar(text, ',') == |key| - 1
    ensures 0 < |key| ==> IsDigit(text[|text| - 1])
    ensures forall i :: 0 <= i < |text| ==> IsDigit(text[i]) || text[i] == '-' || text[i] == ','
  {
    if |key| == 0 then ""
    else if |key| == 1 then
      CountCharAbsent(IntToDecimal(key[0]), ',');
      IntToDecimal(key[0])
    else
      var head := IntToDecimal(key[0]) + ",";
      CountCharAppend(head, SerializeKey(key[1..]), ',');
      CountCharAppend(IntToDecimal(key[0]), ",", ',');
      CountCharAbsent(IntToDecimal(key[0]), ',');
      head + SerializeKey(key[1..])
  }

  /** Every token of a key text must parse. */
  function ParseAll(tokens: seq<string>): (r: Result<seq<I16>, KeyError>)
    ensures r.Success? <==> forall k :: 0 <= k < |tokens| ==> ParseI16(tokens[k]).Success?
    ensures r.Success? ==> |r.value| == |tokens|
    ensures r.Success? ==> forall k :: 0 <= k < |tokens| ==> r.value[k] == ParseI16(tokens[k]).value
  {
    if |tokens| == 0 then Success([])
    else
      match ParseI16(tokens[0])
      case Failure(e) => Failure(e)
      case Success(v) =>
        match ParseAll(tokens[1..])
        case Failure(e) => Failure(e)
        case Success(vs) => Success([v] + vs)
  }

  /** The tokens `read_key_from_file` parses: the first line of the text,
      trimmed, split at commas. */
  function KeyTokens(text: string): (tokens: seq<string>)
    ensures |tokens| == CountChar(Trim(FirstLine(text)), ',') + 1
    ensures forall k :: 0 <= k < |tokens| ==> ',' !in tokens[k]
    ensures Join(tokens, ',') == Trim(FirstLine(text))
  {
    Split(Trim(FirstLine(text)), ',')
  }

  /** `read_key_from_file`: every token of the first line parsed. A token
      that does not parse fails the whole read. */
  function ParseKey(text: string): (r: Result<seq<I16>, KeyError>)
    ensures r.Success? <==> forall k :: 0 <= k < |KeyTokens(text)| ==> ParseI16(KeyTokens(text)[k]).Success?
    ensures r.Success? ==> |r.value| == CountChar(Trim(FirstLine(text)), ',') + 1
    ensures r.Success? ==> forall k :: 0 <= k < |r.value| ==> r.value[k] == ParseI16(KeyTokens(text)[k]).value
  {
    ParseAll(KeyTokens(text))
  }

  lemma {:induction false} CountCharAppend(a: string, b: string, c: char)
    ensures CountChar(a + b, c) == CountChar(a, c) + CountChar(b, c)
    decreases |a|
  {
    if |a| == 0 {
      assert a + b == b;
    } else {
      assert (a + b)[1..] == a[1..] + b;
      CountCharAppend(a[1..], b, c);
    }
  }

  lemma {:induction false} CountCharAbsent(s: string, c: char)
    requires c !in s
    ensures CountChar(s, c) == 0
    decreases |s|
  {
    if |s| > 0 {
      assert c !in s[1..];
      CountCharAbsent(s[1..], c);
    }
  }

  lemma {:induction false} SplitFree(t: string, sep: char)
    requires sep !in t
    ensures Split(t, sep) == [t]
    decreases |t|
  {
    if |t| > 0 {
      SplitFree(t[1..], sep);
      assert t == [t[0]] + t[1..];
    }
  }

  lemma {:induction false} SplitAfterFirst(t: string, rest: string, sep: char)
    requires sep !in t
    ensures Split(t + [sep] + rest, sep) == [t] + Split(rest, sep)
    decreases |t|
  {
    var s := t + [sep] + rest;
    if |t| == 0 {
      assert s[1..] == rest;
    } else {
      assert s[1..] == t[1..] + [sep] + rest;
      SplitAfterFirst(t[1..], rest, sep);
      assert t == [t[0]] + t[1..];
    }
  }

  /** The decimal forms of the entries of a key, in order. */
  function Decimals(key: seq<I16>): (tokens: seq<string>)
    ensures |tokens| == |key|
    ensures forall k :: 0 <= k < |key| ==> tokens[k] == IntToDecimal(key[k])
  {
    if |key| == 0 then [] else [IntToDecimal(key[0])] + Decimals(key[1..])
  }

  /** The tokens of a serialised key are the decimal forms of its entries. */
  lemma {:induction false} SerializedTokens(key: seq<I16>)
    requires 0 < |key|
    ensures Split(SerializeKey(key), ',') == Decimals(key)
    decreases |key|
  {
    var first := IntToDecimal(key[0]);
    assert ',' !in first;
    if |key| == 1 {
      SplitFree(first, ',');
    } else {
      SerializedTokens(key[1..]);
      assert SerializeKey(key) == first + [','] + SerializeKey(key[1..]);
      SplitAfterFirst(first, SerializeKey(key[1..]), ',');
    }
  }

  /** Every `i16` reads back from its decimal form. */
  lemma ParseDecimal(x: I16)
    ensures ParseI16(IntToDecimal(x)) == Success(x)
  {
    var s := IntToDecimal(x);
    if x < 0 {
      var magnitude: nat := -(x as int);
      var digits := NatToDecimal(magnitude);
      assert s == "-" + digits;
      assert s[0] == '-' && s[1..] == digits;
      assert AllDigits(digits) && DecimalValue(digits) == magnitude;
    } else {
      var digits := NatToDecimal(x);
      assert s == digits && IsDigit(s[0]);
      assert AllDigits(digits) && DecimalValue(digits) == x;
    }
  }

  /** Text free of whitespace and line feeds passes the first-line read and
      the trim unchanged. */
  lemma PlainLineUnchanged(s: string)
    requires forall i :: 0 <= i < |s| ==> !IsWhitespace(s[i])
    ensures Trim(FirstLine(s)) == s
  {
    assert IsWhitespace('\n');
    assert FirstLine(s) == s;
    assert TrimStart(s) == s;
    assert TrimEnd(s) == s;
  }

  /** A non-empty key reads back from its text form. */
  lemma KeyRoundTrip(key: seq<I16>)
    requires 0 < |key|
    ensures ParseKey(SerializeKey(key)) == Success(key)
  {
    var text := SerializeKey(key);
    SerializedTextIsPlain(key);
    PlainLineUnchanged(text);
    SerializedTokens(key);
    assert KeyTokens(text) == Decimals(key);
    ParseDecimals(key);
  }

  /** The decimal forms of a key's entries parse back to the key. */
  lemma ParseDecimals(key: seq<I16>)
    ensures ParseAll(Decimals(key)) == Success(key)
  {
    var tokens := Decimals(key);
    forall k | 0 <= k < |key|
      ensures ParseI16(tokens[k]) == Success(key[k])
    {
      ParseDecimal(key[k]);
    }
    var r := ParseAll(tokens);
    assert r.Success? && |r.value| == |key|;
    assert r.value == key;
  }

  lemma SerializedTextIsPlain(key: seq<I16>)
    ensures forall i :: 0 <= i < |SerializeKey(key)| ==> !IsWhitespace(SerializeKey(key)[i])
  {
    var text := SerializeKey(key);
    forall i | 0 <= i < |text|
      ensures !IsWhitespace(text[i])
    {
      var c := text[i];
      assert IsDigit(c) || c == '-' || c == ',';
    }
  }

  /** The empty key is written as empty text, which reads back as the single
      token "", and that fails to parse. */
  lemma EmptyKeyDoesNotRoundTrip()
    ensures SerializeKey([]) == ""
    ensures ParseKey(SerializeKey([])).Failure?
  {
    assert Split("", ',') == [""];
  }

  /** The serialisation of the key 1, -1, 2, -2, 3. */
  lemma SerializeExample()
    ensures SerializeKey([1, -1, 2, -2, 3]) == "1,-1,2,-2,3"
  {
  }
}
