/**
 * parseMatrix: turns the free text returned by the image recogniser into a
 * 9x9 matrix of numbers, or None (the source's null). The text is reduced to
 * digits and whitespace, split into non-blank trimmed lines, rebuilt from its
 * digit stream when there are not nine lines, and each line's numbers are
 * truncated or zero-padded to nine.
 */
module Parser {
  import opened Config
  import opened Strings

  /** JavaScript's `\s` class: the ECMAScript white-space and line-terminator characters. */
  predicate IsSpace(ch: char) {
    ch == ' ' || ch == '\t' || ch == '\n' || ch == '\r' || ch == '\U{000B}' || ch == '\U{000C}' ||
    ch == '\U{00A0}' || ch == '\U{1680}' || ('\U{2000}' <= ch <= '\U{200A}') || ch == '\U{2028}' ||
    ch == '\U{2029}' || ch == '\U{202F}' || ch == '\U{205F}' || ch == '\U{3000}' || ch == '\U{FEFF}'
  }

  /** Text made of digits and whitespace only. */
  predicate DigitsAndSpaces(s: string) {
    forall i :: 0 <= i < |s| ==> IsDigit(s[i]) || IsSpace(s[i])
  }

  // ---------------------------------------------------------------------------
  // Cleaning
  // ---------------------------------------------------------------------------

  /** The optional pre-step: when the grid-shaped pattern matches, the text is
      replaced by the matched span. */
  function Extract(text: string, span: Option<(nat, nat)>): (t: string)
    requires span.Some? ==> span.value.0 <= span.value.1 <= |text|
    ensures |t| <= |text| && (span.None? ==> t == text)
  {
    if span.Some? then text[span.value.0..span.value.1] else text
  }

  /** The digits of s, in order (`s.match(/\d/g) || []`). */
  function Digits(s: string): (ds: string)
    ensures AllDigits(ds) && |ds| <= |s|
  {
    if s == [] then [] else (if IsDigit(s[0]) then [s[0]] else []) + Digits(s[1..])
  }

  /** `replace(/[^\d\s\n]/g, '')`: keeps exactly the digits and whitespace, in order. */
  function RemoveForeign(s: string): (t: string)
    ensures DigitsAndSpaces(t) && Digits(t) == Digits(s)
  {
    if s == [] then []
    else if IsDigit(s[0]) || IsSpace(s[0]) then [s[0]] + RemoveForeign(s[1..])
    else RemoveForeign(s[1..])
  }

  /** `replace(/\n+/g, '\n')`: every run of newlines becomes a single newline. */
  function CollapseNewlines(s: string): (t: string)
    ensures |t| <= |s| && (s != [] ==> t != [] && t[0] == s[0])
  {
    if s == [] then []
    else if s[0] == '\n' && |s| > 1 && s[1] == '\n' then CollapseNewlines(s[1..])
    else [s[0]] + CollapseNewlines(s[1..])
  }

  /** Collapsing adds no character that was not in the text. */
  lemma {:induction false} CollapseKeepsClasses(s: string)
    requires DigitsAndSpaces(s)
    ensures DigitsAndSpaces(CollapseNewlines(s))
    decreases |s|
  {
    if s != [] {
      CollapseKeepsClasses(s[1..]);
    }
  }

  /** After collapsing no two newlines are next to each other. */
  lemma {:induction false} CollapseSingle(s: string)
    ensures SingleNewlines(CollapseNewlines(s))
    decreases |s|
  {
    if s != [] {
      CollapseSingle(s[1..]);
      var rest := CollapseNewlines(s[1..]);
      if !(s[0] == '\n' && |s| > 1 && s[1] == '\n') {
        var t := [s[0]] + rest;
        forall i | 0 <= i < |t| - 1
          ensures t[i] != '\n' || t[i + 1] != '\n'
        {
          if i > 0 {
            assert t[i] == rest[i - 1] && t[i + 1] == rest[i];
          }
        }
      }
    }
  }

  /** Collapsing removes newlines only, so it keeps every digit in order. */
  lemma {:induction false} CollapseDigits(s: string)
    ensures Digits(CollapseNewlines(s)) == Digits(s)
    decreases |s|
  {
    if s != [] {
      CollapseDigits(s[1..]);
      if !(s[0] == '\n' && |s| > 1 && s[1] == '\n') {
        var rest := CollapseNewlines(s[1..]);
        assert ([s[0]] + rest)[1..] == rest;
      }
    }
  }

  /** Removes the leading whitespace. */
  function TrimStart(s: string): (t: string)
    ensures |t| <= |s|
  {
    if s != [] && IsSpace(s[0]) then TrimStart(s[1..]) else s
  }

  /** TrimStart drops a prefix of whitespace and stops at a non-space. */
  lemma {:induction false} TrimStartShape(s: string)
    ensures TrimStart(s) == s[|s| - |TrimStart(s)|..]
    ensures forall i :: 0 <= i < |s| - |TrimStart(s)| ==> IsSpace(s[i])
    ensures TrimStart(s) == [] || !IsSpace(TrimStart(s)[0])
    decreases |s|
  {
    if s != [] && IsSpace(s[0]) {
      TrimStartShape(s[1..]);
    }
  }

  /** Removes the trailing whitespace. */
  function TrimEnd(s: string): (t: string)
    ensures |t| <= |s|
  {
    if s != [] && IsSpace(s[|s| - 1]) then TrimEnd(s[..|s| - 1]) else s
  }

  /** TrimEnd drops a suffix of whitespace and stops at a non-space. */
  lemma {:induction false} TrimEndShape(s: string)
    ensures TrimEnd(s) == s[..|TrimEnd(s)|]
    ensures forall i :: |TrimEnd(s)| <= i < |s| ==> IsSpace(s[i])
    ensures TrimEnd(s) == [] || !IsSpace(TrimEnd(s)[|TrimEnd(s)| - 1])
    decreases |s|
  {
    if s != [] && IsSpace(s[|s| - 1]) {
      TrimEndShape(s[..|s| - 1]);
    }
  }

  /** `trim()`. */
  function Trim(s: string): string
  {
    TrimEnd(TrimStart(s))
  }

  /** The cleaned text: no character but digits and whitespace, newline runs
      collapsed, and no whitespace at either end. */
  function Clean(text: string): (t: string)
    ensures t == [] || (!IsSpace(t[0]) && !IsSpace(t[|t| - 1]))
  {
    var c := CollapseNewlines(RemoveForeign(text));
    TrimStartShape(c);
    TrimEndShape(TrimStart(c));
    Trim(c)
  }

  /** `split('\n')`. */
  function SplitLines(s: string): (lines: seq<string>)
    ensures |lines| >= 1
    ensures forall k :: 0 <= k < |lines| ==> '\n' !in lines[k]
    decreases |s|
  {
    var i := IndexOf(s, '\n');
    if i == |s| then [s] else [s[..i]] + SplitLines(s[i + 1..])
  }

  /** `lines.map(line => line.trim())`. */
  function TrimAll(lines: seq<string>): seq<string>
  {
    seq(|lines|, k requires 0 <= k < |lines| => Trim(lines[k]))
  }

  /** `lines.filter(line => line.length > 0)`. */
  function NonEmpty(lines: seq<string>): (r: seq<string>)
    ensures |r| <= |lines|
  {
    if lines == [] then [] else (if lines[0] != [] then [lines[0]] else []) + NonEmpty(lines[1..])
  }

  /** The non-blank trimmed lines of the cleaned text. */
  function CleanLines(clean: string): seq<string>
  {
    NonEmpty(TrimAll(SplitLines(clean)))
  }

  // ---------------------------------------------------------------------------
  // Numbers of a line
  // ---------------------------------------------------------------------------

  /** `split(/\s+/)`: the pieces between maximal runs of whitespace. */
  function SplitSpaces(s: string): (parts: seq<string>)
    ensures |parts| >= 1
    decreases |s|
  {
    var i := FirstSpace(s);
    if i == |s| then [s] else [s[..i]] + SplitSpaces(TrimStart(s[i..]))
  }

  /** Index of the first whitespace character of s, or |s|. */
  function FirstSpace(s: string): (i: nat)
    ensures i <= |s| && (i < |s| ==> IsSpace(s[i]))
    ensures forall j :: 0 <= j < i ==> !IsSpace(s[j])
  {
    if s == [] || IsSpace(s[0]) then 0 else 1 + FirstSpace(s[1..])
  }

  /** The leading run of digits of s. */
  function DigitPrefix(s: string): (p: string)
    ensures AllDigits(p) && |p| <= |s| && p == s[..|p|]
    ensures |p| < |s| ==> !IsDigit(s[|p|])
  {
    if s != [] && IsDigit(s[0]) then [s[0]] + DigitPrefix(s[1..]) else []
  }

  /** `parseInt(token, 10)` on a token without whitespace or sign: the value of its
      leading digits, or None (NaN) when it does not start with a digit. */
  function ParseInt(token: string): (n: Option<nat>)
    ensures n.None? <==> token == [] || !IsDigit(token[0])
  {
    var p := DigitPrefix(token);
    if p == [] then None else Some(Value(p))
  }

  /** `.map(n => parseInt(n, 10)).filter(n => !isNaN(n))`. */
  function ParseAll(tokens: seq<string>): (nums: seq<int>)
    ensures forall k :: 0 <= k < |nums| ==> nums[k] >= 0
  {
    if tokens == [] then []
    else (match ParseInt(tokens[0]) case Some(v) => [v as int] case None => []) + ParseAll(tokens[1..])
  }

  /** The numbers of one line. */
  function Numbers(line: string): (ns: seq<int>)
    ensures forall k :: 0 <= k < |ns| ==> ns[k] >= 0
  {
    ParseAll(SplitSpaces(line))
  }

  /** The values of the non-empty pieces, in order. */
  function RunValues(parts: seq<string>): seq<int>
    requires forall k :: 0 <= k < |parts| ==> AllDigits(parts[k])
  {
    if parts == [] then []
    else (if parts[0] != [] then [Value(parts[0]) as int] else []) + RunValues(parts[1..])
  }

  // ---------------------------------------------------------------------------
  // Rows rebuilt from the digit stream
  // ---------------------------------------------------------------------------

  /** The digits of ds as one-character strings joined by single spaces. */
  function Spaced(ds: string): (s: string)
    ensures ds != [] ==> s != [] && s[0] == ds[0]
    ensures |s| == if ds == [] then 0 else 2 * |ds| - 1
    ensures AllDigits(ds) ==> Digits(s) == ds
  {
    if |ds| <= 1 then ds else [ds[0], ' '] + Spaced(ds[1..])
  }

  /** The recovery loop of parseMatrix: row i is digits 9i..9i+8 joined by spaces. */
  method RebuildRows(digits: string) returns (lines: seq<string>)
    requires |digits| == GRID_SIZE * GRID_SIZE
    ensures |lines| == GRID_SIZE
    ensures forall i :: 0 <= i < GRID_SIZE ==> lines[i] == Spaced(digits[i * GRID_SIZE..(i + 1) * GRID_SIZE])
  {
    lines := [];
    for i := 0 to GRID_SIZE
      invariant |lines| == i
      invariant forall k :: 0 <= k < i ==> lines[k] == Spaced(digits[k * GRID_SIZE..(k + 1) * GRID_SIZE])
    {
      lines := lines + [Spaced(digits[i * GRID_SIZE..(i + 1) * GRID_SIZE])];
    }
  }

  // ---------------------------------------------------------------------------
  // Row length and the whole parse
  // ---------------------------------------------------------------------------

  /** The row repair of parseMatrix: keeps the first nine numbers and pads a
      shorter row with zeros. */
  method FixLength(numbers: seq<int>) returns (row: seq<int>)
    ensures |row| == GRID_SIZE
    ensures forall k :: 0 <= k < GRID_SIZE ==> row[k] == if k < |numbers| then numbers[k] else 0
  {
    row := numbers;
    if |row| != GRID_SIZE {
      if |row| > GRID_SIZE {
        row := row[..GRID_SIZE];
      }
      while |row| < GRID_SIZE
        invariant |row| <= GRID_SIZE
        invariant forall k :: 0 <= k < |row| ==> row[k] == if k < |numbers| then numbers[k] else 0
      {
        row := row + [0];
      }
    }
  }

  /** Row i rebuilt from the digit stream ds holds digits 9i..9i+8. */
  ghost predicate RowsFromDigits(m: seq<seq<int>>, ds: string): (ok: bool)
    requires |ds| == GRID_SIZE * GRID_SIZE && AllDigits(ds)
    ensures ok ==> |m| == GRID_SIZE && forall i, k :: 0 <= i < GRID_SIZE && 0 <= k < GRID_SIZE ==> |m[i]| == GRID_SIZE && 0 <= m[i][k] <= 9
  {
    |m| == GRID_SIZE && (forall i :: 0 <= i < GRID_SIZE ==> |m[i]| == GRID_SIZE) &&
    forall i, k :: 0 <= i < GRID_SIZE && 0 <= k < GRID_SIZE ==> m[i][k] == DigitValue(ds[i * GRID_SIZE + k])
  }

  /** Row i taken from line i: its numbers, truncated or padded to nine. */
  ghost predicate RowsFromLines(m: seq<seq<int>>, lines: seq<string>): (ok: bool)
    requires |lines| == GRID_SIZE
    ensures ok ==> |m| == GRID_SIZE && forall i, k :: 0 <= i < GRID_SIZE && 0 <= k < GRID_SIZE ==> |m[i]| == GRID_SIZE && 0 <= m[i][k]
  {
    |m| == GRID_SIZE && (forall i :: 0 <= i < GRID_SIZE ==> |m[i]| == GRID_SIZE) &&
    forall i, k :: 0 <= i < GRID_SIZE && 0 <= k < GRID_SIZE ==>
      m[i][k] == if k < |Numbers(lines[i])| then Numbers(lines[i])[k] else 0
  }

  /** The line-count recovery of parseMatrix. With nine cleaned lines they are
      kept; otherwise, with 81 digits, the rows are rebuilt from the digit stream;
      otherwise the line count stays wrong. */
  method RecoverLines(cleanText: string) returns (lines: seq<string>)
    ensures |CleanLines(cleanText)| == GRID_SIZE ==> lines == CleanLines(cleanText)
    ensures |CleanLines(cleanText)| != GRID_SIZE && |Digits(cleanText)| == GRID_SIZE * GRID_SIZE ==>
              |lines| == GRID_SIZE && forall i :: 0 <= i < GRID_SIZE ==> lines[i] == Spaced(Digits(cleanText)[i * GRID_SIZE..(i + 1) * GRID_SIZE])
    ensures |CleanLines(cleanText)| != GRID_SIZE && |Digits(cleanText)| != GRID_SIZE * GRID_SIZE ==> |lines| != GRID_SIZE
  {
    lines := CleanLines(cleanText);
    if |lines| != GRID_SIZE {
      // Strategy 1: all digits of the cleaned text, nine per row.
      var allNumbers := Digits(cleanText);
      if |allNumbers| == GRID_SIZE * GRID_SIZE {
        lines := RebuildRows(allNumbers);
      }
      // Strategy 2: the digits of the lines joined by spaces.
      if |lines| != GRID_SIZE {
        var digits := Digits(Join(lines, " "));
        if |digits| == GRID_SIZE * GRID_SIZE {
          lines := RebuildRows(digits);
        }
      }
      JoinedLinesKeepDigits(cleanText);
    }
  }

  /** `lines.map(...)`: each line's numbers, truncated or padded to nine. */
  method ParseRows(lines: seq<string>) returns (rows: seq<seq<int>>)
    requires |lines| == GRID_SIZE
    ensures RowsFromLines(rows, lines)
  {
    rows := [];
    for i := 0 to GRID_SIZE
      invariant |rows| == i && forall r :: 0 <= r < i ==> |rows[r]| == GRID_SIZE
      invariant forall r, k :: 0 <= r < i && 0 <= k < GRID_SIZE ==>
                  rows[r][k] == if k < |Numbers(lines[r])| then Numbers(lines[r])[k] else 0
    {
      var row := FixLength(Numbers(lines[i]));
      rows := rows + [row];
    }
  }

  /**
   * parseMatrix. `span` is the match of the grid-shaped pattern, when there is
   * one. The result is None exactly when the cleaned text has neither nine
   * non-blank lines nor 81 digits; otherwise it is nine rows of nine numbers,
   * taken line by line when there are nine lines and from the digit stream
   * otherwise.
   */
  method ParseMatrix(text: string, span: Option<(nat, nat)>) returns (matrix: Option<seq<seq<int>>>)
    requires span.Some? ==> span.value.0 <= span.value.1 <= |text|
    ensures var clean := Clean(Extract(text, span));
      matrix.None? <==> |CleanLines(clean)| != GRID_SIZE && |Digits(clean)| != GRID_SIZE * GRID_SIZE
    ensures var clean := Clean(Extract(text, span));
      matrix.Some? && |CleanLines(clean)| == GRID_SIZE ==> RowsFromLines(matrix.value, CleanLines(clean))
    ensures var clean := Clean(Extract(text, span));
      matrix.Some? && |CleanLines(clean)| != GRID_SIZE ==> RowsFromDigits(matrix.value, Digits(clean))
  {
    var source := Extract(text, span);
    var cleanText := Clean(source);
    var lines := RecoverLines(cleanText);
    if |lines| != GRID_SIZE {
      return None;
    }
    var rows := ParseRows(lines);
    if |CleanLines(cleanText)| != GRID_SIZE {
      RebuiltRows(lines, Digits(cleanText), rows);
    }
    return Some(rows);
  }

  /** Rows parsed from rebuilt lines hold the digit values of the stream. */
  lemma RebuiltRows(lines: seq<string>, ds: string, rows: seq<seq<int>>)
    requires |ds| == GRID_SIZE * GRID_SIZE && AllDigits(ds) && |lines| == GRID_SIZE
    requires forall i :: 0 <= i < GRID_SIZE ==> lines[i] == Spaced(ds[i * GRID_SIZE..(i + 1) * GRID_SIZE])
    requires RowsFromLines(rows, lines)
    ensures RowsFromDigits(rows, ds)
  {
    forall i | 0 <= i < GRID_SIZE
      ensures forall k :: 0 <= k < GRID_SIZE ==> rows[i][k] == DigitValue(ds[i * GRID_SIZE + k])
    {
      var row := ds[i * GRID_SIZE..(i + 1) * GRID_SIZE];
      NumbersOfSpaced(row);
      assert |Numbers(lines[i])| == GRID_SIZE;
    }
  }

  // ---------------------------------------------------------------------------
  // Properties
  // ---------------------------------------------------------------------------

  /** `parseInt` of a single digit is that digit's value. */
  /** A token made only of digits is read whole. */
  lemma ParseWholeToken(token: string)
    requires AllDigits(token) && token != []
    ensures ParseInt(token) == Some(Value(token))
  {
    WholeDigitPrefix(token);
  }

  lemma ParseDigit(d: char)
    requires IsDigit(d)
    ensures ParseInt([d]) == Some(DigitValue(d))
  {
    assert DigitPrefix([d]) == [d];
    assert [d][..0] == [];
    assert Value([d]) == Value([]) * 10 + DigitValue(d);
  }

  /** The values of the digits of ds, in order. */
  function DigitValues(ds: string): (vs: seq<int>)
    requires AllDigits(ds)
    ensures |vs| == |ds| && forall k :: 0 <= k < |ds| ==> vs[k] == DigitValue(ds[k])
  {
    if ds == [] then [] else [DigitValue(ds[0]) as int] + DigitValues(ds[1..])
  }

  /** Numbers of digits joined by spaces are those digits' values, in order. */
  lemma {:induction false} NumbersOfSpaced(ds: string)
    requires AllDigits(ds)
    ensures Numbers(Spaced(ds)) == DigitValues(ds)
    decreases |ds|
  {
    if |ds| == 0 {
      assert SplitSpaces([]) == [[]];
    } else if |ds| == 1 {
      NumbersOfDigit(ds);
    } else {
      var rest := ds[1..];
      SplitSpaced(ds);
      ParseDigit(ds[0]);
      ParseAllCons([ds[0]], SplitSpaces(Spaced(rest)));
      NumbersOfSpaced(rest);
    }
  }

  lemma NumbersOfDigit(ds: string)
    requires AllDigits(ds) && |ds| == 1
    ensures Numbers(Spaced(ds)) == DigitValues(ds)
  {
    assert FirstSpace(ds) == 1 + FirstSpace([]);
    assert SplitSpaces(ds) == [ds] + [];
    ParseDigit(ds[0]);
    ParseAllCons(ds, []);
    assert ds == [ds[0]];
  }

  /** The first piece of digits joined by spaces is the first digit. */
  lemma SplitSpaced(ds: string)
    requires AllDigits(ds) && |ds| >= 2
    ensures SplitSpaces(Spaced(ds)) == [[ds[0]]] + SplitSpaces(Spaced(ds[1..]))
  {
    var sp := Spaced(ds[1..]);
    var s := Spaced(ds);
    assert s == [ds[0], ' '] + sp;
    DigitIsNotSpace(ds[0]);
    DigitIsNotSpace(ds[1]);
    assert FirstSpace(s[1..]) == 0;
    assert FirstSpace(s) == 1;
    assert s[..1] == [ds[0]];
    assert s[1..][1..] == sp;
    assert TrimStart(s[1..]) == sp;
  }

  lemma DigitIsNotSpace(ch: char)
    requires IsDigit(ch)
    ensures !IsSpace(ch)
  {
  }

  lemma ParseAllCons(token: string, tokens: seq<string>)
    ensures ParseAll([token] + tokens) == (match ParseInt(token) case Some(v) => [v as int] case None => []) + ParseAll(tokens)
  {
    assert ([token] + tokens)[0] == token && ([token] + tokens)[1..] == tokens;
  }

  /** Digits distribute over concatenation. */
  lemma {:induction false} DigitsAppend(a: string, b: string)
    ensures Digits(a + b) == Digits(a) + Digits(b)
    decreases |a|
  {
    if a != [] {
      assert (a + b)[1..] == a[1..] + b;
      DigitsAppend(a[1..], b);
    } else {
      assert a + b == b;
    }
  }

  /** Whitespace holds no digits. */
  lemma {:induction false} DigitsOfSpaces(s: string)
    requires forall i :: 0 <= i < |s| ==> IsSpace(s[i])
    ensures Digits(s) == []
    decreases |s|
  {
    if s != [] {
      DigitsOfSpaces(s[1..]);
    }
  }

  /** Trimming removes no digit. */
  lemma DigitsOfTrim(s: string)
    ensures Digits(Trim(s)) == Digits(s)
  {
    DigitsOfTrimStart(s);
    DigitsOfTrimEnd(TrimStart(s));
  }

  lemma DigitsOfTrimStart(s: string)
    ensures Digits(TrimStart(s)) == Digits(s)
  {
    var t := TrimStart(s);
    TrimStartShape(s);
    var lead := s[..|s| - |t|];
    assert s == lead + t;
    DigitsAppend(lead, t);
    DigitsOfSpaces(lead);
  }

  lemma DigitsOfTrimEnd(t: string)
    ensures Digits(TrimEnd(t)) == Digits(t)
  {
    var u := TrimEnd(t);
    TrimEndShape(t);
    var trail := t[|u|..];
    assert t == u + trail;
    DigitsAppend(u, trail);
    DigitsOfSpaces(trail);
  }

  /** The digits of a list of lines, line after line. */
  function DigitsOfAll(lines: seq<string>): string
  {
    if lines == [] then [] else Digits(lines[0]) + DigitsOfAll(lines[1..])
  }

  lemma {:induction false} DigitsOfJoin(lines: seq<string>)
    ensures Digits(Join(lines, " ")) == DigitsOfAll(lines)
    decreases |lines|
  {
    if |lines| == 1 {
      assert DigitsOfAll(lines) == Digits(lines[0]) + DigitsOfAll([]);
    } else if |lines| > 1 {
      DigitsAppend(lines[0] + " ", Join(lines[1..], " "));
      DigitsAppend(lines[0], " ");
      DigitsOfJoin(lines[1..]);
    }
  }

  lemma {:induction false} DigitsOfNonEmpty(lines: seq<string>)
    ensures DigitsOfAll(NonEmpty(lines)) == DigitsOfAll(lines)
    decreases |lines|
  {
    if lines != [] {
      var r := NonEmpty(lines[1..]);
      DigitsOfNonEmpty(lines[1..]);
      if lines[0] != [] {
        var n := NonEmpty(lines);
        assert n == [lines[0]] + r;
        assert n[0] == lines[0] && n[1..] == r;
      } else {
        assert NonEmpty(lines) == [] + r == r;
        assert Digits(lines[0]) == [];
        assert DigitsOfAll(lines) == Digits(lines[0]) + DigitsOfAll(lines[1..]) == DigitsOfAll(lines[1..]);
      }
    }
  }

  lemma {:induction false} DigitsOfTrimAll(lines: seq<string>)
    ensures DigitsOfAll(TrimAll(lines)) == DigitsOfAll(lines)
    decreases |lines|
  {
    if lines != [] {
      var t := TrimAll(lines);
      assert t[0] == Trim(lines[0]) && t[1..] == TrimAll(lines[1..]);
      DigitsOfTrim(lines[0]);
      DigitsOfTrimAll(lines[1..]);
    }
  }

  lemma {:induction false} DigitsOfSplitLines(s: string)
    ensures DigitsOfAll(SplitLines(s)) == Digits(s)
    decreases |s|
  {
    var i := IndexOf(s, '\n');
    if i == |s| {
      assert DigitsOfAll([s]) == Digits(s) + DigitsOfAll([]);
    } else {
      var lines := SplitLines(s);
      assert lines[0] == s[..i] && lines[1..] == SplitLines(s[i + 1..]);
      DigitsAroundNewline(s, i);
      DigitsOfSplitLines(s[i + 1..]);
    }
  }

  /** A newline holds no digit: the digits of s are those before and after it. */
  lemma DigitsAroundNewline(s: string, i: int)
    requires 0 <= i < |s| && s[i] == '\n'
    ensures Digits(s) == Digits(s[..i]) + Digits(s[i + 1..])
  {
    assert s == s[..i] + ("\n" + s[i + 1..]);
    DigitsAppend(s[..i], "\n" + s[i + 1..]);
    DigitsAppend("\n", s[i + 1..]);
  }

  /** Joining the cleaned lines with spaces keeps the digit stream of the cleaned
      text, so the second recovery strategy finds 81 digits only when the first
      one already did. */
  lemma JoinedLinesKeepDigits(clean: string)
    ensures Digits(Join(CleanLines(clean), " ")) == Digits(clean)
  {
    DigitsOfJoin(CleanLines(clean));
    DigitsOfNonEmpty(TrimAll(SplitLines(clean)));
    DigitsOfTrimAll(SplitLines(clean));
    DigitsOfSplitLines(clean);
  }

  /** No two newlines next to each other. */
  predicate SingleNewlines(s: string) {
    forall i :: 0 <= i < |s| - 1 ==> s[i] != '\n' || s[i + 1] != '\n'
  }

  /** A slice keeps the character classes of the whole. */
  lemma SliceKeeps(s: string, i: int, j: int)
    requires 0 <= i <= j <= |s|
    ensures DigitsAndSpaces(s) ==> DigitsAndSpaces(s[i..j])
    ensures SingleNewlines(s) ==> SingleNewlines(s[i..j])
    ensures '\n' !in s ==> '\n' !in s[i..j]
  {
    var t := s[i..j];
    assert forall k :: 0 <= k < |t| ==> t[k] == s[i + k];
  }

  /** Cleaning leaves only digits and whitespace, keeps every digit of the text
      in order, and leaves no two newlines next to each other. */
  lemma CleanText(text: string)
    ensures DigitsAndSpaces(Clean(text)) && Digits(Clean(text)) == Digits(text) && SingleNewlines(Clean(text))
  {
    var n := CollapseNewlines(RemoveForeign(text));
    CollapseKeepsClasses(RemoveForeign(text));
    CollapseSingle(RemoveForeign(text));
    CollapseDigits(RemoveForeign(text));
    var t := TrimStart(n);
    TrimStartShape(n);
    TrimEndShape(t);
    SliceKeeps(n, |n| - |t|, |n|);
    SliceKeeps(t, 0, |TrimEnd(t)|);
    DigitsOfTrim(n);
    assert Clean(text) == TrimEnd(t);
  }

  /** A line as the cleaning leaves it: digits and whitespace, no newline, and
      neither starting nor ending with whitespace. */
  ghost predicate TrimmedLine(line: string) {
    DigitsAndSpaces(line) && '\n' !in line && (line != [] ==> !IsSpace(line[0]) && !IsSpace(line[|line| - 1]))
  }

  /** The lines of the cleaned text are non-blank trimmed lines of digits and whitespace. */
  lemma CleanLinesShape(text: string)
    ensures forall k :: 0 <= k < |CleanLines(Clean(text))| ==>
      CleanLines(Clean(text))[k] != [] && TrimmedLine(CleanLines(Clean(text))[k])
  {
    var c := Clean(text);
    CleanText(text);
    SplitLinesPieces(c);
    TrimAllLines(SplitLines(c));
    NonEmptyLines(TrimAll(SplitLines(c)));
  }

  lemma {:induction false} SplitLinesPieces(s: string)
    requires DigitsAndSpaces(s)
    ensures forall k :: 0 <= k < |SplitLines(s)| ==> DigitsAndSpaces(SplitLines(s)[k])
    decreases |s|
  {
    var i := IndexOf(s, '\n');
    if i < |s| {
      SplitLinesPieces(s[i + 1..]);
      var lines := SplitLines(s);
      assert lines[0] == s[..i] && lines[1..] == SplitLines(s[i + 1..]);
      forall k | 1 <= k < |lines|
        ensures DigitsAndSpaces(lines[k])
      {
        assert lines[k] == SplitLines(s[i + 1..])[k - 1];
      }
    }
  }

  lemma TrimLine(line: string)
    requires DigitsAndSpaces(line) && '\n' !in line
    ensures TrimmedLine(Trim(line))
  {
    var t := TrimStart(line);
    var u := TrimEnd(t);
    TrimStartShape(line);
    TrimEndShape(t);
    SliceKeeps(line, |line| - |t|, |line|);
    SliceKeeps(t, 0, |u|);
    if u != [] {
      assert u[0] == t[0];
    }
  }

  lemma TrimAllLines(lines: seq<string>)
    requires forall k :: 0 <= k < |lines| ==> DigitsAndSpaces(lines[k]) && '\n' !in lines[k]
    ensures |TrimAll(lines)| == |lines| && forall k :: 0 <= k < |lines| ==> TrimmedLine(TrimAll(lines)[k])
  {
    forall k | 0 <= k < |lines|
      ensures TrimmedLine(TrimAll(lines)[k])
    {
      TrimLine(lines[k]);
    }
  }

  lemma {:induction false} NonEmptyLines(lines: seq<string>)
    requires forall k :: 0 <= k < |lines| ==> TrimmedLine(lines[k])
    ensures forall k :: 0 <= k < |NonEmpty(lines)| ==> NonEmpty(lines)[k] != [] && TrimmedLine(NonEmpty(lines)[k])
    decreases |lines|
  {
    if lines != [] {
      NonEmptyLines(lines[1..]);
      var r := NonEmpty(lines[1..]);
      var n := NonEmpty(lines);
      if lines[0] != [] {
        assert n == [lines[0]] + r;
        forall k | 1 <= k < |n|
          ensures n[k] != [] && TrimmedLine(n[k])
        {
          assert n[k] == r[k - 1];
        }
      } else {
        assert n == [] + r == r;
      }
    }
  }

  /** `split(/\s+/)` cuts at maximal whitespace runs: no piece holds whitespace,
      so on a line of digits and whitespace every piece is a run of digits. */
  lemma {:induction false} SplitSpacesPieces(s: string)
    ensures forall k, j :: 0 <= k < |SplitSpaces(s)| && 0 <= j < |SplitSpaces(s)[k]| ==> !IsSpace(SplitSpaces(s)[k][j])
    ensures DigitsAndSpaces(s) ==> forall k :: 0 <= k < |SplitSpaces(s)| ==> AllDigits(SplitSpaces(s)[k])
    decreases |s|
  {
    var i := FirstSpace(s);
    if i < |s| {
      var tail := TrimStart(s[i..]);
      TrimStartShape(s[i..]);
      SplitSpacesPieces(tail);
      var parts := SplitSpaces(s);
      assert parts == [s[..i]] + SplitSpaces(tail);
      if DigitsAndSpaces(s) {
        assert forall j :: 0 <= j < |tail| ==> tail[j] == s[|s| - |tail| + j];
      }
    }
  }

  /** On all-digit pieces, parsing and filtering gives the values of the non-empty pieces. */
  lemma {:induction false} ParseAllRuns(parts: seq<string>)
    requires forall k :: 0 <= k < |parts| ==> AllDigits(parts[k])
    ensures ParseAll(parts) == RunValues(parts)
    decreases |parts|
  {
    if parts != [] {
      WholeDigitPrefix(parts[0]);
      ParseAllRuns(parts[1..]);
    }
  }

  /** The leading digit run of a run of digits is all of it. */
  lemma {:induction false} WholeDigitPrefix(p: string)
    requires AllDigits(p)
    ensures DigitPrefix(p) == p
    decreases |p|
  {
    if p != [] {
      WholeDigitPrefix(p[1..]);
    }
  }

  /** Every number of a cleaned line is the value of a maximal run of digits:
      the numbers are the values of the non-empty pieces between whitespace runs. */
  lemma NumbersAreRunValues(line: string)
    requires DigitsAndSpaces(line)
    ensures forall k :: 0 <= k < |SplitSpaces(line)| ==> AllDigits(SplitSpaces(line)[k])
    ensures Numbers(line) == RunValues(SplitSpaces(line))
  {
    SplitSpacesPieces(line);
    ParseAllRuns(SplitSpaces(line));
  }

  /** A run of two digits is one entry: "12" parses to 12, so entries can exceed 9. */
  lemma MultiDigitEntry()
    ensures Numbers("12") == [12]
  {
    var s := "12";
    assert FirstSpace(s) == 2 by {
      assert s[1..] == "2" && s[1..][1..] == [];
    }
    assert SplitSpaces(s) == [s];
    assert DigitPrefix(s) == s by {
      assert s[1..] == "2" && DigitPrefix("2") == "2";
    }
    assert Value(s) == Value("1") * 10 + 2 by {
      assert s[..1] == "1";
    }
    assert Value("1") == 1 by {
      assert "1"[..0] == [];
    }
  }
}
