/** The pure coordinate helpers of the Reversi engine: the column labels
    `ROWLABEL` and `N2L`, the parsing of a typed move by
    `convert_coordinate`, and the conversion between a board cell and the
    flat action index the learning agents use. */
module Coordinates {
  import opened Geometry

  /** `{chr(ord('a') + x): x + 1 for x in range(8)}`: the column letters
      'a'..'h' (one-character strings) to the 1-based columns 1..8. */
  const ROWLABEL: map<string, int> :=
    map["a" := 1, "b" := 2, "c" := 3, "d" := 4, "e" := 5, "f" := 6, "g" := 7, "h" := 8]

  /** `[''] + [chr(ord('a') + x) for x in range(8)]`: the 1-based column
      number back to its letter, with the empty string at index 0. */
  const N2L: seq<string> := ["", "a", "b", "c", "d", "e", "f", "g", "h"]

  /** `ROWLABEL` maps exactly the letters 'a'..'h', to 1..8 in order, and
      `N2L` is its inverse in both directions. */
  lemma LabelsRoundTrip()
    ensures |N2L| == 9 && N2L[0] == ""
    ensures forall key :: key in ROWLABEL <==> |key| == 1 && 'a' <= key[0] <= 'h'
    ensures forall key :: key in ROWLABEL ==> ROWLABEL[key] == key[0] as int - 'a' as int + 1
    ensures forall key :: key in ROWLABEL ==> 1 <= ROWLABEL[key] <= 8 && N2L[ROWLABEL[key]] == key
    ensures forall n :: 1 <= n <= 8 ==> N2L[n] in ROWLABEL && ROWLABEL[N2L[n]] == n
  {
    forall key | |key| == 1 && 'a' <= key[0] <= 'h'
      ensures key in ROWLABEL
    {
      var c := key[0];
      assert key == [c];
      assert c == 'a' || c == 'b' || c == 'c' || c == 'd' || c == 'e' || c == 'f' || c == 'g' || c == 'h';
    }
  }

  /** Index of the first `x` in `s`, or `|s|` when there is none: the
      separator `split` cuts at, and the first stone of the mover on a
      scanned ray. */
  function IndexOf<T(==)>(s: seq<T>, x: T): (k: nat)
    ensures k <= |s|
    ensures k < |s| ==> s[k] == x
    ensures forall i :: 0 <= i < k ==> s[i] != x
  {
    if |s| == 0 then 0 else if s[0] == x then 0 else 1 + IndexOf(s[1..], x)
  }

  /** The pieces joined back with the separator between them. */
  function Join(parts: seq<string>, sep: char): string {
    if |parts| == 0 then "" else if |parts| == 1 then parts[0] else parts[0] + [sep] + Join(parts[1..], sep)
  }

  /** Python's `s.split(sep)` with an explicit one-character separator: cut
      at every occurrence, keeping empty pieces, so that `"" .split(' ')`
      is `[""]`. */
  function Split(s: string, sep: char): (parts: seq<string>)
    ensures |parts| >= 1
    ensures forall k :: 0 <= k < |parts| ==> sep !in parts[k]
    ensures Join(parts, sep) == s
    decreases |s|
  {
    var k := IndexOf(s, sep);
    if k == |s| then [s]
    else
      var rest := Split(s[k + 1..], sep);
      assert s == s[..k] + [sep] + s[k + 1..];
      [s[..k]] + rest
  }

  /** Splitting undoes joining: pieces without the separator come back
      unchanged. */
  lemma {:induction false} SplitJoin(parts: seq<string>, sep: char)
    requires |parts| >= 1
    requires forall k :: 0 <= k < |parts| ==> sep !in parts[k]
    ensures Split(Join(parts, sep), sep) == parts
    decreases |parts|
  {
    if |parts| == 1 {
      assert IndexOf(parts[0], sep) == |parts[0]|;
    } else {
      var s := Join(parts, sep);
      var head := parts[0];
      assert s == head + [sep] + Join(parts[1..], sep);
      assert IndexOf(s, sep) == |head| by {
        assert s[|head|] == sep;
        forall i | 0 <= i < |head| ensures s[i] != sep {
          assert s[i] == head[i];
        }
      }
      assert s[..|head|] == head;
      assert s[|head| + 1..] == Join(parts[1..], sep);
      SplitJoin(parts[1..], sep);
    }
  }

  predicate IsDigit(c: char) {
    '0' <= c <= '9'
  }

  /** Decimal value of a string of digits. */
  function DigitsValue(s: string): nat
    requires forall i :: 0 <= i < |s| ==> IsDigit(s[i])
  {
    if |s| == 0 then 0
    else
      assert IsDigit(s[|s| - 1]);
      10 * DigitsValue(s[..|s| - 1]) + (s[|s| - 1] as int - '0' as int)
  }

  datatype ParsedInt = Int(value: int) | NotAnInt

  /** Python's `int(s)` restricted to ASCII: it succeeds on a non-empty
      run of the digits '0'..'9'. A sign, surrounding whitespace, `_`
      separators and non-ASCII digits, which Python also accepts, are read
      as not a number; the prompt check in front of the only caller lets
      just one ASCII digit through. */
  function ParseInt(s: string): (r: ParsedInt)
    ensures r.Int? <==> |s| > 0 && forall i :: 0 <= i < |s| ==> IsDigit(s[i])
    ensures |s| == 1 && IsDigit(s[0]) ==> r == Int(s[0] as int - '0' as int)
  {
    if |s| > 0 && forall i :: 0 <= i < |s| ==> IsDigit(s[i]) then
      assert |s| == 1 ==> s[..0] == [] && DigitsValue(s[..0]) == 0;
      Int(DigitsValue(s))
    else NotAnInt
  }

  /** The exceptions `convert_coordinate` can raise. */
  datatype ConvertError = ValueError | IndexError | KeyError

  datatype Converted = Ok(pos: Pos) | Err(error: ConvertError)

  /** `convert_coordinate` (ch4/train_reversi_DNN.py:177-181): split the
      answer at spaces, read the row from the first piece and the column
      letter from the second, both 1-based, and return them 0-based. The
      exceptions Python would raise become `Err`. */
  function ConvertCoordinate(text: string): (r: Converted)
    ensures r.Ok? ==> |Split(text, ' ')| >= 2 && Split(text, ' ')[1] in ROWLABEL
    ensures r == Err(ValueError) <==> ParseInt(Split(text, ' ')[0]).NotAnInt?
  {
    var parts := Split(text, ' ');
    match ParseInt(parts[0])
    case NotAnInt => Err(ValueError)
    case Int(n) =>
      if |parts| < 2 then Err(IndexError)
      else if parts[1] !in ROWLABEL then Err(KeyError)
      else Ok((n - 1, ROWLABEL[parts[1]] - 1))
  }

  /** A converted answer always names one of the eight columns 'a'..'h'. */
  lemma ConvertedColumn(text: string)
    ensures ConvertCoordinate(text).Ok? ==> 0 <= ConvertCoordinate(text).pos.1 < 8
  {
    LabelsRoundTrip();
  }

  /** What `re.match(r'[0-9] [a-z]', pos)` accepts: a digit, a space and a
      lower-case letter at the START of the answer (it is not anchored at
      the end). */
  predicate MatchesPrompt(text: string) {
    |text| >= 3 && IsDigit(text[0]) && text[1] == ' ' && 'a' <= text[2] <= 'z'
  }

  /** On an answer the prompt accepts, `convert_coordinate` returns row
      digit-1 and the column of the letter piece when that piece is one of
      'a'..'h', and raises KeyError otherwise (a letter after 'h', or more
      letters before the next space). */
  lemma {:induction false} ConvertPrompted(text: string)
    requires MatchesPrompt(text)
    ensures var parts := Split(text, ' ');
      |parts| >= 2 && parts[0] == text[..1] &&
      ConvertCoordinate(text) ==
        if parts[1] in ROWLABEL then Ok((text[0] as int - '0' as int - 1, parts[1][0] as int - 'a' as int))
        else Err(KeyError)
  {
    PromptParts(text);
    var parts := Split(text, ' ');
    if parts[1] in ROWLABEL {
      LabelValue(parts[1]);
    }
  }

  /** A label's column is its letter's distance from 'a', plus one. */
  lemma LabelValue(key: string)
    requires key in ROWLABEL
    ensures |key| == 1 && ROWLABEL[key] == key[0] as int - 'a' as int + 1
  {
  }

  /** An answer the prompt accepts splits into the digit and at least one
      more piece, and its first piece reads as that digit. */
  lemma PromptParts(text: string)
    requires MatchesPrompt(text)
    ensures var parts := Split(text, ' ');
      |parts| >= 2 && parts[0] == text[..1] && ParseInt(parts[0]) == Int(text[0] as int - '0' as int)
  {
    assert IndexOf(text, ' ') == 1;
  }

  /** The move notation read back: a digit for the row, a space and the
      `N2L` letter of the column give that row and column 0-based
      (ch4/train_reversi_DNN.py:21, 177-181). The digit '0' gives row -1,
      which lies off the board. */
  lemma {:induction false} ConvertRoundTrip(row: int, col: int)
    requires 0 <= row <= 9 && 0 <= col < 8
    ensures ConvertCoordinate([('0' as int + row) as char] + " " + N2L[col + 1]) == Ok((row - 1, col))
  {
    var letter := N2L[col + 1];
    assert |letter| == 1 && letter[0] as int == 'a' as int + col && letter in ROWLABEL by {
      LabelsRoundTrip();
    }
    var text := [('0' as int + row) as char] + " " + letter;
    assert MatchesPrompt(text);
    ConvertPrompted(text);
    SplitMove(text[0], letter);
    assert text == [text[0]] + " " + letter;
  }

  /** A digit, a space and a one-letter piece split into the digit and the
      letter. */
  lemma SplitMove(digit: char, letter: string)
    requires |letter| == 1 && letter[0] != ' ' && digit != ' '
    ensures Split([digit] + " " + letter, ' ') == [[digit], letter]
  {
    var text := [digit] + " " + letter;
    assert text[0] == digit && text[1] == ' ';
    assert IndexOf(text, ' ') == 1;
    assert text[..1] == [digit] && text[2..] == letter;
    assert IndexOf(letter, ' ') == 1;
    assert Split(letter, ' ') == [letter];
    assert Split(text, ' ') == [text[..1]] + Split(text[2..], ' ');
  }

  /** `i * SIZE + j` (ch4/train_reversi_DNN.py:90): a cell as a flat index. */
  function Flatten(p: Pos): int {
    p.0 * SIZE + p.1
  }

  /** `divmod(pos, SIZE)` (ch4/train_reversi_DNN.py:242). Python floors and
      Dafny's division is Euclidean; with the positive divisor SIZE the two
      agree on every integer. The result is the unique cell whose flat index
      is `a`, and it is on the board exactly when `a` is a valid action. */
  function Unflatten(a: int): (p: Pos)
    ensures Flatten(p) == a && 0 <= p.1 < SIZE
    ensures InBounds(p) <==> 0 <= a < SIZE * SIZE
  {
    (a / SIZE, a % SIZE)
  }

  /** Unflattening undoes flattening for every in-range column. */
  lemma FlattenRoundTrip(p: Pos)
    requires 0 <= p.1 < SIZE
    ensures Unflatten(Flatten(p)) == p
    ensures InBounds(p) ==> 0 <= Flatten(p) < SIZE * SIZE
  {
  }
}
