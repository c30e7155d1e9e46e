/** The compiler's parse-tree convertor (Source/Parser/Convertor.cpp), the
    parts that do not walk tree-sitter nodes: literal suffixes, `parse_uint64`,
    comment encoding, the operator symbol tables, parameter lists and the
    slot each converted expression takes in its statement. */
module ParserConvertor {
  import opened Wrappers
  import opened Strings
  import opened Operations
  import opened CoreIR
  import PT = ParseTreeMappings
  import JsNumbers

  // ----- Literal suffixes -----

  /** Where the suffix search starts: after a leading `0x`. */
  function SuffixSearchStart(value: string): nat {
    if |value| >= 2 && value[..2] == "0x" then 2 else 0
  }

  /** The first letter at or after `from`, or `|s|`. */
  function FirstLetterFrom(s: string, from: nat): (k: nat)
    requires from <= |s|
    ensures from <= k <= |s|
    ensures forall j :: from <= j < k ==> !IsLetter(s[j])
    ensures k < |s| ==> IsLetter(s[k])
    decreases |s| - from
  {
    if from == |s| then from
    else if IsLetter(s[from]) then from
    else FirstLetterFrom(s, from + 1)
  }

  /** The suffix `get_number_suffix` returns. */
  function NumberSuffix(value: string): string {
    value[FirstLetterFrom(value, SuffixSearchStart(value))..]
  }

  /** `get_number_suffix`: the text from the first letter, skipping a
      leading `0x`; "" when there is no letter. */
  method GetNumberSuffix(value: string) returns (suffix: string)
    ensures suffix == NumberSuffix(value)
    ensures suffix == value[|value| - |suffix|..]
    ensures |suffix| > 0 ==> IsLetter(suffix[0])
    ensures forall j :: SuffixSearchStart(value) <= j < |value| - |suffix| ==> !IsLetter(value[j])
  {
    var start := if |value| >= 2 && value[..2] == "0x" then 2 else 0;
    var index := start;
    while index < |value|
      invariant start <= index <= |value|
      invariant forall j :: start <= j < index ==> !IsLetter(value[j])
      invariant FirstLetterFrom(value, start) == FirstLetterFrom(value, index)
    {
      var character := value[index];
      if IsLetter(character) && character != '.' {
        return value[index..];
      }
      index := index + 1;
    }
    return "";
  }

  /** A literal printed as digits (and a decimal point) followed by a suffix
      starting with a letter gives that suffix back. */
  lemma NumberSuffixOfPrinted(data: string, suffix: string)
    requires NoLetters(data) && (|suffix| == 0 || (IsLetter(suffix[0]) && suffix[0] != 'x'))
    ensures NumberSuffix(data + suffix) == suffix
  {
    var value := data + suffix;
    assert forall j :: 0 <= j < |data| ==> value[j] == data[j];
    assert |suffix| > 0 ==> value[|data|] == suffix[0];
    assert SuffixSearchStart(value) == 0 by {
      if |value| >= 2 {
        assert value[..2][0] == value[0] && value[..2][1] == value[1];
      }
    }
    assert FirstLetterFrom(value, 0) == |data|;
    assert value[|data|..] == suffix;
  }

  /** As written, after `0x` the hexadecimal digits `a`-`f` are letters, so
      they are taken as the suffix. */
  lemma HexDigitsTakenAsSuffix()
    ensures NumberSuffix("0xff") == "ff"
    ensures NumberSuffix("0x1Fi32") == "Fi32"
    ensures NumberSuffix("10i32") == "i32"
    ensures NumberSuffix("1.5") == ""
  {
    assert "0xff"[..2] == "0x";
    assert "0x1Fi32"[..2] == "0x";
    assert FirstLetterFrom("0x1Fi32", 2) == 3;
    assert FirstLetterFrom("10i32", 0) == 2;
    assert FirstLetterFrom("1.5", 0) == 3;
  }

  /** `get_string_suffix`: the text after the last `"`; with no quote,
      `npos + 1` wraps to 0 and the whole text is returned. */
  function GetStringSuffix(value: string): (r: string)
    requires |value| < Uint64Modulus
    ensures |r| <= |value| && r == value[|value| - |r|..]
    ensures '"' !in r
    ensures '"' in value ==> |r| < |value| && value[|value| - |r| - 1] == '"'
    ensures '"' !in value ==> r == value
  {
    var location := LastIndexOf(value, '"');
    var start := Wrap64(location + 1);
    var r := value[start..];
    assert forall k :: 0 <= k < |r| ==> r[k] == value[start + k];
    assert '"' in value ==> exists q :: 0 <= q < |value| && value[q] == '"';
    r
  }

  /** A string literal `"data"suffix` gives its suffix back. */
  lemma StringSuffixOfPrinted(data: string, suffix: string)
    requires '"' !in suffix && |data| + |suffix| + 2 < Uint64Modulus
    ensures GetStringSuffix("\"" + data + "\"" + suffix) == suffix
  {
    var value := "\"" + data + "\"" + suffix;
    var k := |data| + 1;
    assert value[k] == '"';
    assert forall j :: k < j < |value| ==> value[j] == suffix[j - k - 1];
    assert forall j :: k < j < |value| ==> value[j] != '"';
    LastIndexAt(value, '"', k);
    assert value[k + 1..] == suffix;
  }

  // ----- parse_uint64 -----

  const Uint64Max: nat := 0xFFFF_FFFF_FFFF_FFFF

  /** The longest prefix of decimal digits. */
  function LeadingDigits(s: string): (r: string)
    ensures |r| <= |s| && r == s[..|r|] && AllDigits(r)
    ensures |r| < |s| ==> !IsDigit(s[|r|])
  {
    if |s| == 0 || !IsDigit(s[0]) then ""
    else
      var rest := LeadingDigits(s[1..]);
      assert [s[0]] + rest == s[..|rest| + 1];
      [s[0]] + rest
  }

  /** The characters C's `isspace` accepts in the default locale. */
  predicate IsCSpace(c: char) {
    c == ' ' || c == '\t' || c == '\n' || c == '\U{000B}' || c == '\U{000C}' || c == '\r'
  }

  /** `s` after its leading `isspace` characters. */
  function SkipCSpace(s: string): string {
    if |s| > 0 && IsCSpace(s[0]) then SkipCSpace(s[1..]) else s
  }

  /** `strtoull(text, &end, 10)`: leading white space is skipped, an
      optional `+` or `-` is read, then the longest run of decimal digits.
      A value above 2^64 - 1 saturates there; otherwise a `-` negates it
      modulo 2^64. With no digits the result is 0. */
  function Strtoull(s: string): (r: nat)
    ensures r <= Uint64Max
  {
    var t := SkipCSpace(s);
    var negative := |t| > 0 && t[0] == '-';
    var unsigned := if |t| > 0 && (t[0] == '+' || t[0] == '-') then t[1..] else t;
    var n := DigitsValue(LeadingDigits(unsigned));
    if n > Uint64Max then Uint64Max
    else if negative then Wrap64(0 - n)
    else n
  }

  /** Signs and leading white space as `strtoull` reads them: a negated
      value wraps around modulo 2^64. */
  lemma StrtoullSignAndSpace(n: nat, space: string)
    requires 0 < n <= Uint64Max
    requires forall k :: 0 <= k < |space| ==> IsCSpace(space[k])
    ensures Strtoull(space + ("-" + NatToString(n))) == Uint64Modulus - n
    ensures Strtoull(space + ("+" + NatToString(n))) == n
  {
    var digits := NatToString(n);
    LeadingDigitsOfDigits(digits);
    SignedDigits(space, '-', digits);
    SignedDigits(space, '+', digits);
  }

  lemma SignedDigits(space: string, sign: char, digits: string)
    requires forall k :: 0 <= k < |space| ==> IsCSpace(space[k])
    requires sign == '+' || sign == '-'
    requires LeadingDigits(digits) == digits
    ensures var n := DigitsValue(digits);
      Strtoull(space + ([sign] + digits)) == if n > Uint64Max then Uint64Max else if sign == '-' then Wrap64(0 - n) else n
  {
    var t := [sign] + digits;
    SkipLeadingSpace(space, t);
    assert t[0] == sign && t[1..] == digits;
  }

  /** A digit string is its own longest digit prefix. */
  lemma LeadingDigitsOfDigits(s: string)
    requires AllDigits(s)
    ensures LeadingDigits(s) == s
  {
    assert s[..|s|] == s;
    var r := LeadingDigits(s);
    assert |r| == |s|;
  }

  /** Text starting with a digit is read from its first character. */
  lemma UnsignedDigits(s: string)
    requires |s| > 0 && IsDigit(s[0])
    ensures var n := DigitsValue(LeadingDigits(s));
      Strtoull(s) == if n > Uint64Max then Uint64Max else n
  {
    assert !IsCSpace(s[0]) && s[0] != '+' && s[0] != '-';
    assert SkipCSpace(s) == s;
  }

  lemma {:induction false} SkipLeadingSpace(space: string, t: string)
    requires forall k :: 0 <= k < |space| ==> IsCSpace(space[k])
    requires |t| > 0 && !IsCSpace(t[0])
    ensures SkipCSpace(space + t) == t
  {
    if |space| == 0 {
      assert space + t == t;
    } else {
      assert (space + t)[1..] == space[1..] + t;
      SkipLeadingSpace(space[1..], t);
    }
  }

  /** `parse_uint64`: copies at most 20 characters into a 21-character
      buffer, terminates it and converts it. */
  method ParseUint64(value: string) returns (number: nat)
    ensures number == Strtoull(value[..Min(20, |value|)])
    ensures number <= Uint64Max
  {
    var buffer := new char[21];
    var size := Min(20, |value|);
    for index := 0 to size
      invariant buffer[..index] == value[..index]
    {
      buffer[index] := value[index];
    }
    buffer[size] := '\0';
    number := Strtoull(buffer[..size]);
  }

  function Pow10(k: nat): nat { if k == 0 then 1 else 10 * Pow10(k - 1) }

  lemma {:induction false} NatToStringLength(n: nat, k: nat)
    requires n < Pow10(k)
    ensures |NatToString(n)| <= k || (n == 0 && k == 0)
  {
    if n >= 10 {
      NatToStringLength(n / 10, k - 1);
    } else if k == 0 {
      assert Pow10(0) == 1;
    }
  }

  lemma Pow10Twenty()
    ensures Pow10(20) == 100000000000000000000
  {
    assert Pow10(1) == 10;
    assert Pow10(2) == 100;
    assert Pow10(3) == 1000;
    assert Pow10(4) == 10000;
    assert Pow10(5) == 100000;
    assert Pow10(6) == 1000000;
    assert Pow10(7) == 10000000;
    assert Pow10(8) == 100000000;
    assert Pow10(9) == 1000000000;
    assert Pow10(10) == 10000000000;
    assert Pow10(11) == 100000000000;
    assert Pow10(12) == 1000000000000;
    assert Pow10(13) == 10000000000000;
    assert Pow10(14) == 100000000000000;
    assert Pow10(15) == 1000000000000000;
    assert Pow10(16) == 10000000000000000;
    assert Pow10(17) == 100000000000000000;
    assert Pow10(18) == 1000000000000000000;
    assert Pow10(19) == 10000000000000000000;
  }

  /** Every 64-bit value's decimal text is at most 20 characters long, so
      `parse_uint64` reads it back; any text after the first 20 characters is
      ignored. */
  lemma ParseUint64RoundTrip(n: nat, rest: string)
    requires n <= Uint64Max
    ensures Strtoull(NatToString(n)[..Min(20, |NatToString(n)|)]) == n
    ensures |NatToString(n)| >= 20 ==> Strtoull((NatToString(n) + rest)[..20]) == n
  {
    Pow10Twenty();
    NatToStringLength(n, 20);
    var s := NatToString(n);
    assert |s| <= 20 && s[..Min(20, |s|)] == s;
    LeadingDigitsOfDigits(s);
    UnsignedDigits(s);
    assert Strtoull(s) == n;
    if |s| >= 20 {
      assert (s + rest)[..20] == s;
    }
  }

  // ----- Comments -----

  /** The text `encode_comment` keeps of the line starting at `index`:
      from after the first `//` found to the end of the line, without a
      trailing `\r`. Positions are 64-bit: when no `//` is left, `npos + 2`
      wraps to 1, and a negative length wraps to a huge one that `substr`
      cuts at the end of the text. */
  function LineContent(value: string, index: nat): string
    requires index < |value|
  {
    var start := NextCommentStart(value, index);
    var contentStart := if start == -1 then 1 else start + 2;
    var contentEnd := ContentEnd(value, NextNewline(value, index + 2));
    Substr(value, contentStart, Wrap64(contentEnd - contentStart))
  }

  /** Where a line's content ends, given the position of its `\n` (or -1):
      before a `\r` that precedes it. */
  function ContentEnd(value: string, end: int): (r: nat)
    requires (end == -1 && |value| > 0) || 0 < end <= |value|
    ensures r <= |value|
  {
    var e := if end == -1 then |value| else end;
    if value[e - 1] == '\r' then e - 1 else e
  }

  /** What `encode_comment` appends from `index` on, one piece per line. */
  function CommentPieces(value: string, index: nat): seq<string>
    decreases |value| - index
  {
    if index >= |value| then []
    else
      var end := NextNewline(value, index + 2);
      if end == -1 then [SeparatedLine(value, index)]
      else [SeparatedLine(value, index)] + CommentPieces(value, end + 1)
  }

  /** What `encode_comment` appends from `index` on: each line's content,
      lines separated by `\n`. */
  function EncodedFrom(value: string, index: nat): string {
    Concat(CommentPieces(value, index))
  }

  /** What `encode_comment` appends for the line at `index`: a `\n` unless
      it is the first line, then the line's content. */
  function SeparatedLine(value: string, index: nat): string
    requires index < |value|
  {
    (if index > 0 then "\n" else "") + LineContent(value, index)
  }

  /** A `//` starts at `k`. */
  predicate SlashesAt(s: string, k: int) {
    0 <= k && k + 1 < |s| && s[k] == '/' && s[k + 1] == '/'
  }

  /** The first `//` at or after `from`, or -1. */
  function NextCommentStart(s: string, from: nat): (r: int)
    ensures r == -1 || (from <= r && SlashesAt(s, r))
    decreases |s| - from
  {
    if from + 1 >= |s| then -1
    else if s[from] == '/' && s[from + 1] == '/' then from
    else NextCommentStart(s, from + 1)
  }

  /** No `//` starts between `from` and `NextCommentStart(s, from)`. */
  lemma {:induction false} NextCommentStartFirst(s: string, from: nat)
    ensures forall k :: from <= k && (NextCommentStart(s, from) == -1 || k < NextCommentStart(s, from)) ==> !SlashesAt(s, k)
    decreases |s| - from
  {
    if from + 1 < |s| && !(s[from] == '/' && s[from + 1] == '/') {
      NextCommentStartFirst(s, from + 1);
    }
  }

  /** `find("//", from)` is `NextCommentStart`. */
  lemma {:induction false} FindIsNextCommentStart(s: string, from: nat)
    ensures FindFrom(s, "//", from) == NextCommentStart(s, from)
    decreases |s| - from
  {
    if from + 1 < |s| {
      assert s[from..from + 2] == "//" <==> s[from] == '/' && s[from + 1] == '/' by {
        assert s[from..from + 2] == [s[from], s[from + 1]];
      }
      if !(s[from] == '/' && s[from + 1] == '/') {
        FindIsNextCommentStart(s, from + 1);
      }
    }
  }

  /** The first `\n` at or after `from`, or -1. */
  function NextNewline(s: string, from: nat): (r: int)
    ensures r == -1 || (from <= r < |s| && s[r] == '\n')
    decreases |s| - from
  {
    if from >= |s| then -1 else if s[from] == '\n' then from else NextNewline(s, from + 1)
  }

  /** No `\n` lies between `from` and `NextNewline(s, from)`. */
  lemma {:induction false} NextNewlineFirst(s: string, from: nat)
    ensures forall k :: from <= k < |s| && (NextNewline(s, from) == -1 || k < NextNewline(s, from)) ==> s[k] != '\n'
    decreases |s| - from
  {
    if from < |s| && s[from] != '\n' {
      NextNewlineFirst(s, from + 1);
    }
  }

  /** `find("\n", from)` is `NextNewline`. */
  lemma FindIsNextNewline(s: string, from: nat)
    ensures FindFrom(s, "\n", from) == NextNewline(s, from)
  {
    var r := NextNewline(s, from);
    NextNewlineFirst(s, from);
    if r == -1 {
      FindCharAbsent(s, '\n', from);
    } else {
      FindCharAt(s, '\n', from, r);
    }
  }

  /** The last line of `encode_comment`. */
  lemma EncodedFromLast(value: string, index: nat, content: string)
    requires index < |value| && NextNewline(value, index + 2) == -1
    requires content == LineContent(value, index)
    ensures EncodedFrom(value, index) == (if index > 0 then "\n" else "") + content
  {
    ConcatOne(SeparatedLine(value, index));
  }

  /** A line of `encode_comment` followed by more lines. */
  lemma EncodedFromNext(value: string, index: nat, end: int, content: string)
    requires index < |value| && end == NextNewline(value, index + 2) && end != -1
    requires content == LineContent(value, index)
    ensures EncodedFrom(value, index) == ((if index > 0 then "\n" else "") + content) + EncodedFrom(value, end + 1)
  {
    ConcatCons(SeparatedLine(value, index), CommentPieces(value, end + 1));
  }

  /** `encode_comment`: its `find("//", index)` and `find("\n", index + 2)`
      are `NextCommentStart` and `NextNewline` (`FindIsNextCommentStart`,
      `FindIsNextNewline`). */
  method EncodeComment(value: string) returns (buffer: string)
    ensures buffer == EncodedFrom(value, 0)
  {
    buffer := "";
    var index := 0;
    ghost var encoded := EncodedFrom(value, 0);
    AppendEachConcat("", CommentPieces(value, 0));
    assert "" + encoded == encoded;
    while index < |value|
      invariant AppendEach(buffer, CommentPieces(value, index)) == encoded
      decreases |value| - index
    {
      AppendLinePiece(value, index, buffer);
      buffer := buffer + SeparatedLine(value, index);
      var endIndex := NextNewline(value, index + 2);
      if endIndex == -1 {
        break;
      }
      index := endIndex + 1;
    }
  }

  /** One turn of the loop of `encode_comment` appends the piece of the
      line at `index`. */
  lemma AppendLinePiece(value: string, index: nat, buffer: string)
    requires index < |value|
    ensures NextNewline(value, index + 2) == -1 ==>
      AppendEach(buffer, CommentPieces(value, index)) == buffer + SeparatedLine(value, index)
    ensures NextNewline(value, index + 2) != -1 ==>
      AppendEach(buffer, CommentPieces(value, index))
      == AppendEach(buffer + SeparatedLine(value, index), CommentPieces(value, NextNewline(value, index + 2) + 1))
  {
    if NextNewline(value, index + 2) == -1 {
      LastPieceAppended(value, index, buffer);
    } else {
      NextPieceAppended(value, index, buffer);
    }
  }

  /** The last turn of the loop of `encode_comment` appends the piece of
      the line at `index`. */
  lemma LastPieceAppended(value: string, index: nat, buffer: string)
    requires index < |value| && NextNewline(value, index + 2) == -1
    ensures AppendEach(buffer, CommentPieces(value, index)) == buffer + SeparatedLine(value, index)
  {
    AppendEachCons(buffer, SeparatedLine(value, index), []);
  }

  /** A turn of the loop of `encode_comment` that goes on to the next line
      appends the piece of the line at `index`. */
  lemma NextPieceAppended(value: string, index: nat, buffer: string)
    requires index < |value| && NextNewline(value, index + 2) != -1
    ensures AppendEach(buffer, CommentPieces(value, index))
         == AppendEach(buffer + SeparatedLine(value, index), CommentPieces(value, NextNewline(value, index + 2) + 1))
  {
    var line := SeparatedLine(value, index);
    var rest := CommentPieces(value, NextNewline(value, index + 2) + 1);
    assert CommentPieces(value, index) == [line] + rest;
    AppendEachCons(buffer, line, rest);
  }

  /** The comment lines `//l0\n//l1...` of the lines `ls`. */
  function CommentLines(ls: seq<string>): string
    requires |ls| >= 1
  {
    if |ls| == 1 then "//" + ls[0] else "//" + ls[0] + "\n" + CommentLines(ls[1..])
  }

  lemma CommentLinesHead(ls: seq<string>)
    requires |ls| >= 1
    ensures |CommentLines(ls)| >= 2 + |ls[0]|
    ensures CommentLines(ls)[..2 + |ls[0]|] == "//" + ls[0]
    ensures |ls| == 1 ==> CommentLines(ls) == "//" + ls[0]
    ensures |ls| > 1 ==> CommentLines(ls)[2 + |ls[0]|] == '\n' && CommentLines(ls)[3 + |ls[0]|..] == CommentLines(ls[1..])
  {
    var h := "//" + ls[0];
    if |ls| == 1 {
      assert h[..|h|] == h;
    } else {
      SeparatedParts(h, '\n', CommentLines(ls[1..]));
    }
  }

  /** A line without its trailing `\r`. */
  function DropTrailingReturn(l: string): string {
    if |l| > 0 && l[|l| - 1] == '\r' then l[..|l| - 1] else l
  }

  function DropTrailingReturns(ls: seq<string>): (r: seq<string>)
    ensures |r| == |ls|
  {
    if |ls| == 0 then [] else [DropTrailingReturn(ls[0])] + DropTrailingReturns(ls[1..])
  }

  /** `NextNewline` finds the first `\n` from `from` on. */
  lemma {:induction false} NextNewlineAt(s: string, from: nat, k: nat)
    requires from <= k <= |s| && (k == |s| || s[k] == '\n')
    requires forall j :: from <= j < k ==> s[j] != '\n'
    ensures NextNewline(s, from) == if k == |s| then -1 else k
    decreases k - from
  {
    if from < k {
      NextNewlineAt(s, from + 1, k);
    }
  }

  /** The content of a line `//...` that runs from `index` to `lineEnd`. */
  lemma LineContentBetween(value: string, index: nat, lineEnd: nat)
    requires index + 2 <= lineEnd <= |value| < Uint64Modulus && SlashesAt(value, index)
    requires forall j :: index + 2 <= j < lineEnd ==> value[j] != '\n'
    requires lineEnd == |value| || value[lineEnd] == '\n'
    ensures NextNewline(value, index + 2) == (if lineEnd == |value| then -1 else lineEnd)
    ensures LineContent(value, index) == DropTrailingReturn(value[index + 2..lineEnd])
  {
    NextNewlineAt(value, index + 2, lineEnd);
    assert NextCommentStart(value, index) == index;
    var contentEnd := if lineEnd > index + 2 && value[lineEnd - 1] == '\r' then lineEnd - 1 else lineEnd;
    assert ContentEnd(value, NextNewline(value, index + 2)) == contentEnd;
    assert Wrap64(contentEnd - (index + 2)) == contentEnd - (index + 2);
    assert LineContent(value, index) == value[index + 2..contentEnd];
    DropReturnOfSlice(value, index + 2, lineEnd);
  }

  lemma DropReturnOfSlice(value: string, from: nat, to: nat)
    requires from <= to <= |value|
    ensures DropTrailingReturn(value[from..to]) ==
            value[from..if to > from && value[to - 1] == '\r' then to - 1 else to]
  {
    var l := value[from..to];
    if |l| > 0 && l[|l| - 1] == '\r' {
      assert l[..|l| - 1] == value[from..to - 1];
    }
  }

  /** From `index` on, `value` holds the comment lines `//l` of `ls`,
      separated by `\n`. */
  predicate LaidOut(value: string, index: nat, ls: seq<string>)
    decreases |ls|
  {
    |ls| >= 1 && index + 2 + |ls[0]| <= |value| && SlashesAt(value, index) &&
    value[index + 2..index + 2 + |ls[0]|] == ls[0] && '\n' !in ls[0] &&
    if |ls| == 1 then index + 2 + |ls[0]| == |value|
    else (index + 2 + |ls[0]| < |value| && value[index + 2 + |ls[0]|] == '\n' &&
      LaidOut(value, index + 3 + |ls[0]|, ls[1..]))
  }

  /** Where the first of the lines `ls` sits when `value[index..]` holds them. */
  lemma FirstCommentLine(value: string, index: nat, ls: seq<string>)
    requires |ls| >= 1 && index <= |value| && value[index..] == CommentLines(ls)
    ensures index + 2 + |ls[0]| <= |value|
    ensures SlashesAt(value, index) && value[index + 2..index + 2 + |ls[0]|] == ls[0]
    ensures |ls| == 1 ==> index + 2 + |ls[0]| == |value|
    ensures |ls| > 1 ==> index + 2 + |ls[0]| < |value| && value[index + 2 + |ls[0]|] == '\n'
    ensures |ls| > 1 ==> value[index + 3 + |ls[0]|..] == CommentLines(ls[1..])
  {
    var l := ls[0];
    var tail := value[index..];
    CommentLinesHead(ls);
    assert tail[..2 + |l|][0] == '/' && tail[..2 + |l|][1] == '/';
    assert value[index + 2..index + 2 + |l|] == tail[2..2 + |l|];
    if |ls| > 1 {
      assert value[index + 3 + |l|..] == tail[3 + |l|..];
    }
  }

  /** `CommentLines` lays out its lines. */
  lemma {:induction false} CommentLinesLaidOut(value: string, index: nat, ls: seq<string>)
    requires |ls| >= 1 && index <= |value| && value[index..] == CommentLines(ls)
    requires forall i :: 0 <= i < |ls| ==> '\n' !in ls[i]
    ensures LaidOut(value, index, ls)
    decreases |ls|
  {
    FirstCommentLine(value, index, ls);
    if |ls| > 1 {
      CommentLinesLaidOut(value, index + 3 + |ls[0]|, ls[1..]);
    }
  }

  /** The first laid-out line as `encode_comment` reads it. */
  lemma LaidOutFirstLine(value: string, index: nat, ls: seq<string>)
    requires LaidOut(value, index, ls) && |value| < Uint64Modulus
    ensures index < |value| && LineContent(value, index) == DropTrailingReturn(ls[0])
    ensures NextNewline(value, index + 2) == if |ls| == 1 then -1 else index + 2 + |ls[0]|
    ensures |ls| > 1 ==> LaidOut(value, index + 3 + |ls[0]|, ls[1..])
  {
    var lineEnd := index + 2 + |ls[0]|;
    forall j | index + 2 <= j < lineEnd
      ensures value[j] != '\n'
    {
      assert value[j] == ls[0][j - index - 2];
    }
    LineContentBetween(value, index, lineEnd);
  }

  /** From `index` on, `encode_comment` reads the lines `ls`: each line's
      content and where its `\n` is. */
  predicate ReadsLines(value: string, index: nat, ls: seq<string>)
    decreases |ls|
  {
    |ls| >= 1 && index < |value| && LineContent(value, index) == DropTrailingReturn(ls[0]) &&
    if |ls| == 1 then NextNewline(value, index + 2) == -1
    else NextNewline(value, index + 2) == index + 2 + |ls[0]| && ReadsLines(value, index + 3 + |ls[0]|, ls[1..])
  }

  /** Laid-out lines are read back line by line. */
  lemma {:induction false} LaidOutReadsLines(value: string, index: nat, ls: seq<string>)
    requires LaidOut(value, index, ls) && |value| < Uint64Modulus
    ensures ReadsLines(value, index, ls)
    decreases |ls|
  {
    LaidOutFirstLine(value, index, ls);
    if |ls| > 1 {
      LaidOutReadsLines(value, index + 3 + |ls[0]|, ls[1..]);
    }
  }

  /** Encoding the lines read keeps each line's content and joins the lines
      with `\n`. */
  lemma {:induction false} EncodeReadLines(value: string, index: nat, ls: seq<string>)
    requires ReadsLines(value, index, ls)
    ensures EncodedFrom(value, index) == (if index > 0 then "\n" else "") + Join(DropTrailingReturns(ls), "\n")
    decreases |ls|
  {
    if |ls| == 1 {
      EncodedFromLast(value, index, DropTrailingReturn(ls[0]));
      assert DropTrailingReturns(ls) == [DropTrailingReturn(ls[0])];
    } else {
      var lineEnd := index + 2 + |ls[0]|;
      var d := DropTrailingReturns(ls);
      EncodeReadLines(value, lineEnd + 1, ls[1..]);
      EncodedFromNext(value, index, lineEnd, d[0]);
      assert d[1..] == DropTrailingReturns(ls[1..]);
      JoinAfterFirst((if index > 0 then "\n" else ""), d, EncodedFrom(value, index), EncodedFrom(value, lineEnd + 1));
    }
  }

  lemma JoinAfterFirst(prefix: string, d: seq<string>, encoded: string, rest: string)
    requires |d| > 1 && encoded == (prefix + d[0]) + rest && rest == "\n" + Join(d[1..], "\n")
    ensures encoded == prefix + Join(d, "\n")
  {
    assert Join(d, "\n") == d[0] + "\n" + Join(d[1..], "\n");
  }

  lemma EncodeCommentOfLines(ls: seq<string>)
    requires |ls| >= 1 && forall i :: 0 <= i < |ls| ==> '\n' !in ls[i]
    requires |CommentLines(ls)| < Uint64Modulus
    ensures EncodedFrom(CommentLines(ls), 0) == Join(DropTrailingReturns(ls), "\n")
  {
    CommentLinesLaidOut(CommentLines(ls), 0, ls);
    LaidOutReadsLines(CommentLines(ls), 0, ls);
    EncodeReadLines(CommentLines(ls), 0, ls);
  }

  // ----- Operator symbols -----

  /** `get_assignment_operation`: "=" and unknown symbols give `None`, the
      ten compound symbols their operation. */
  function GetAssignmentOperation(operation: string): (r: Option<BinaryOperation>)
    ensures forall op :: r == Some(op) <==> PT.AssignmentOperationToString(Some(op)) == Ok(operation)
  {
    if operation == "=" then None
    else if operation == "+=" then Some(Add)
    else if operation == "-=" then Some(Subtract)
    else if operation == "*=" then Some(Multiply)
    else if operation == "/=" then Some(Divide)
    else if operation == "%=" then Some(Modulus)
    else if operation == "&=" then Some(BitwiseAnd)
    else if operation == "|=" then Some(BitwiseOr)
    else if operation == "^=" then Some(BitwiseXor)
    else if operation == "<<=" then Some(BitShiftLeft)
    else if operation == ">>=" then Some(BitShiftRight)
    else None
  }

  /** `get_binary_operation`: the operation printed as the symbol; every
      other symbol gives `Add`, as written. */
  function GetBinaryOperation(operation: string): BinaryOperation {
    if operation == "+" then Add
    else if operation == "-" then Subtract
    else if operation == "*" then Multiply
    else if operation == "/" then Divide
    else if operation == "%" then Modulus
    else if operation == "==" then Equal
    else if operation == "!=" then NotEqual
    else if operation == "<" then LessThan
    else if operation == "<=" then LessThanOrEqualTo
    else if operation == ">" then GreaterThan
    else if operation == ">=" then GreaterThanOrEqualTo
    else if operation == "&&" then LogicalAnd
    else if operation == "||" then LogicalOr
    else if operation == "&" then BitwiseAnd
    else if operation == "|" then BitwiseOr
    else if operation == "^" then BitwiseXor
    else if operation == "<<" then BitShiftLeft
    else if operation == ">>" then BitShiftRight
    else if operation == "has" then Has
    else Add
  }

  /** `get_unary_operation`: the prefix operation printed as the symbol;
      every other symbol gives `Not`, as written. */
  function GetUnaryOperation(operation: string): UnaryOperation {
    if operation == "!" then Not
    else if operation == "~" then BitwiseNot
    else if operation == "-" then Minus
    else if operation == "++" then PreIncrement
    else if operation == "--" then PreDecrement
    else if operation == "*" then Indirection
    else if operation == "&" then AddressOf
    else Not
  }

  /** The compiler's parser and the editor's parser agree on assignment
      symbols. */
  lemma AssignmentParsersAgree(symbol: string)
    ensures GetAssignmentOperation(symbol) == PT.LabelToAssignmentOperation(symbol)
  {
    var a := PT.LabelToAssignmentOperation(symbol);
    if a.Some? {
      assert PT.AssignmentOperationToString(Some(a.value)) == Ok(symbol);
    } else if GetAssignmentOperation(symbol).Some? {
      assert PT.AssignmentOperationToString(Some(GetAssignmentOperation(symbol).value)) == Ok(symbol);
    }
  }

  /** The compiler's parser and the editor's parser agree on binary symbols,
      up to the compiler's `Add` default. */
  lemma BinaryParsersAgree(symbol: string)
    ensures GetBinaryOperation(symbol) == PT.LabelToBinaryOperation(symbol).GetOr(Add)
  {
    var b := PT.LabelToBinaryOperation(symbol);
    if b.Some? {
      assert PT.BinaryOperationToString(b.value) == symbol;
      BinaryRoundTrip(b.value);
    }
  }

  /** On unary symbols the parsers agree where the editor accepts the symbol;
      only the compiler accepts `++` and `--`, and the editor's intended
      parser agrees with the compiler on every symbol it accepts. */
  lemma UnaryParsersAgree(symbol: string)
    ensures PT.SymbolToUnaryOperation(symbol).Ok? ==> GetUnaryOperation(symbol) == PT.SymbolToUnaryOperation(symbol).value
    ensures GetUnaryOperation("++") == PreIncrement && PT.SymbolToUnaryOperation("++").Err?
    ensures GetUnaryOperation("--") == PreDecrement && PT.SymbolToUnaryOperation("--").Err?
    ensures PT.IntendedSymbolToUnaryOperation(symbol).Ok? ==> GetUnaryOperation(symbol) == PT.IntendedSymbolToUnaryOperation(symbol).value
  {
    var u := PT.IntendedSymbolToUnaryOperation(symbol);
    if u.Ok? {
      assert PT.UnaryOperationToString(u.value) == Ok(symbol);
      UnaryRoundTrip(u.value);
    }
  }

  /** Every binary symbol the editor prints parses back to its operation. */
  lemma BinaryRoundTrip(op: BinaryOperation)
    ensures GetBinaryOperation(PT.BinaryOperationToString(op)) == op
  {
    match op {
      case _ =>
    }
  }

  /** Every unary symbol the editor prints parses back to its operation. */
  lemma UnaryRoundTrip(u: UnaryOperation)
    ensures PT.UnaryOperationToString(u).Ok? ==> GetUnaryOperation(PT.UnaryOperationToString(u).value) == u
  {
    match u {
      case _ =>
    }
  }

  /** A symbol the editor prints for no unary operation gives `Not`. */
  lemma UnaryDefault(symbol: string)
    requires forall v :: PT.UnaryOperationToString(v) != Ok(symbol)
    ensures GetUnaryOperation(symbol) == Not
  {
    assert PT.UnaryOperationToString(Not) != Ok(symbol);
    assert PT.UnaryOperationToString(BitwiseNot) != Ok(symbol);
    assert PT.UnaryOperationToString(Minus) != Ok(symbol);
    assert PT.UnaryOperationToString(PreIncrement) != Ok(symbol);
    assert PT.UnaryOperationToString(PreDecrement) != Ok(symbol);
    assert PT.UnaryOperationToString(Indirection) != Ok(symbol);
    assert PT.UnaryOperationToString(AddressOf) != Ok(symbol);
  }

  // ----- Parameter lists -----

  /** A parameter node as the converter reads it: its text, the value of
      its name child (child 0) and the type its type child (child 2, then
      child 0) converts to, when those children are present. */
  datatype ParameterNode = ParameterNode(value: string, name: Option<string>, parameterType: Option<TypeReference>)

  /** `is_variadic`: the list is not empty and its last node is `...`. */
  predicate IsVariadic(nodes: seq<ParameterNode>) {
    |nodes| > 0 && nodes[|nodes| - 1].value == "..."
  }

  /** How many parameters the lists hold: all nodes but a trailing `...`. */
  function ParameterCount(nodes: seq<ParameterNode>, isVariadic: bool): (r: nat)
    ensures r <= |nodes|
  {
    if |nodes| == 0 then 0 else if isVariadic then |nodes| - 1 else |nodes|
  }

  /** `parameter_nodes_to_names`: one name per parameter, `""` where the name
      child is missing. */
  method ParameterNodesToNames(nodes: seq<ParameterNode>, isVariadic: bool) returns (output: seq<string>)
    ensures |output| == ParameterCount(nodes, isVariadic)
    ensures forall i :: 0 <= i < |output| ==> output[i] == nodes[i].name.GetOr("")
  {
    if |nodes| == 0 {
      return [];
    }
    var count := if isVariadic then |nodes| - 1 else |nodes|;
    if count == 0 {
      return [];
    }
    var names := new string[count](_ => "");
    for index := 0 to count
      invariant forall i :: 0 <= i < index ==> names[i] == nodes[i].name.GetOr("")
      invariant forall i :: index <= i < count ==> names[i] == ""
    {
      var nameNode := nodes[index].name;
      if nameNode.Some? {
        names[index] := nameNode.value;
      }
    }
    output := names[..];
  }

  /** `parameter_nodes_to_type_references`: one type per parameter; `None`
      stands for the default `Type_reference{}` kept where the type child is
      missing or does not convert. */
  method ParameterNodesToTypeReferences(nodes: seq<ParameterNode>, isVariadic: bool) returns (output: seq<Option<TypeReference>>)
    ensures |output| == ParameterCount(nodes, isVariadic)
    ensures forall i :: 0 <= i < |output| ==> output[i] == nodes[i].parameterType
  {
    if |nodes| == 0 {
      return [];
    }
    var count := if isVariadic then |nodes| - 1 else |nodes|;
    if count == 0 {
      return [];
    }
    var types := new Option<TypeReference>[count](_ => None);
    for index := 0 to count
      invariant forall i :: 0 <= i < index ==> types[i] == nodes[i].parameterType
      invariant forall i :: index <= i < count ==> types[i] == None
    {
      var typeNode := nodes[index].parameterType;
      if typeNode.Some? {
        types[index] := typeNode;
      }
    }
    output := types[..];
  }

  /** A variadic list leaves its `...` node out of the names and types, and
      a list without one keeps every node. */
  lemma VariadicDropsLastNode(nodes: seq<ParameterNode>)
    ensures IsVariadic(nodes) ==> ParameterCount(nodes, IsVariadic(nodes)) == |nodes| - 1
    ensures !IsVariadic(nodes) ==> ParameterCount(nodes, IsVariadic(nodes)) == |nodes|
    ensures IsVariadic(nodes + [ParameterNode("...", None, None)])
  {
  }

  // ----- Expression slots -----

  /** An expression node after `get_non_generic_expression_node`: its symbol
      and the sub-expressions its converter turns into expressions of the
      same statement, in the order it converts them; or no node. */
  datatype ExpressionNode =
    | ExpressionNode(symbol: string, operands: seq<ExpressionNode>)
    | NoExpressionNode

  /** A slot of `Statement::expressions`: the default expression pushed to
      reserve it, or a converted expression with the indices of its
      sub-expressions. */
  datatype ExpressionSlot =
    | Reserved
    | Converted(symbol: string, operands: seq<nat>)

  /** The `expression_index` returned when there is nothing to convert:
      `static_cast<std::uint64_t>(-1)`. */
  const InvalidIndex: nat := 0xFFFF_FFFF_FFFF_FFFF

  /** The symbols `node_to_expression` converts. */
  const ExpressionSymbols: set<string> := {
    "Expression_access", "Expression_access_array", "Expression_assert", "Expression_assignment",
    "Expression_binary", "Expression_block", "Expression_break", "Expression_call", "Expression_cast",
    "Expression_comment", "Expression_constant", "Expression_create_array", "Expression_continue",
    "Expression_defer", "Expression_dereference_and_access", "Expression_for_loop",
    "Expression_function", "Expression_if", "Expression_instance_call", "Expression_instantiate",
    "Expression_null_pointer", "Expression_parenthesis", "Expression_reflection_call",
    "Expression_return", "Expression_struct", "Expression_switch", "Expression_ternary_condition",
    "Expression_type", "Expression_unary", "Expression_variable_declaration",
    "Expression_variable_declaration_with_type", "Expression_variable", "Expression_while_loop"
  }

  /** The slots `node_to_expression` appends for `node` when the statement
      already holds `base` expressions. */
  function Appended(node: ExpressionNode, base: nat): seq<ExpressionSlot>
    decreases node, 1
  {
    match node
    case NoExpressionNode => []
    case ExpressionNode(symbol, operands) =>
      if symbol !in ExpressionSymbols then [Reserved]
      else [Converted(symbol, OperandIndices(operands, base + 1))] + OperandsAppended(operands, base + 1)
  }

  /** The index `node_to_expression` returns for `node` at `base`. */
  function ResultIndex(node: ExpressionNode, base: nat): nat {
    if node.ExpressionNode? && node.symbol in ExpressionSymbols then base else InvalidIndex
  }

  /** The slots appended by converting `operands` one after the other. */
  function OperandsAppended(operands: seq<ExpressionNode>, base: nat): seq<ExpressionSlot>
    decreases operands, 0
  {
    if |operands| == 0 then []
    else
      var front := OperandsAppended(operands[..|operands| - 1], base);
      front + Appended(operands[|operands| - 1], base + |front|)
  }

  /** The indices those conversions return. */
  function OperandIndices(operands: seq<ExpressionNode>, base: nat): (r: seq<nat>)
    ensures |r| == |operands|
    decreases operands, 0
  {
    if |operands| == 0 then []
    else
      var front := OperandsAppended(operands[..|operands| - 1], base);
      OperandIndices(operands[..|operands| - 1], base) + [ResultIndex(operands[|operands| - 1], base + |front|)]
  }

  /** Converting the first `i + 1` operands is converting the first `i`,
      then operand `i`. */
  lemma OperandsStep(operands: seq<ExpressionNode>, i: nat, base: nat)
    requires i < |operands|
    ensures OperandsAppended(operands[..i + 1], base)
         == OperandsAppended(operands[..i], base) + Appended(operands[i], base + |OperandsAppended(operands[..i], base)|)
    ensures OperandIndices(operands[..i + 1], base)
         == OperandIndices(operands[..i], base) + [ResultIndex(operands[i], base + |OperandsAppended(operands[..i], base)|)]
  {
    assert operands[..i + 1][..i] == operands[..i];
    assert operands[..i + 1][i] == operands[i];
  }

  /** Filling the reserved slot after `prefix`. */
  lemma ReplaceReserved(prefix: seq<ExpressionSlot>, slot: ExpressionSlot, rest: seq<ExpressionSlot>)
    ensures ((prefix + [Reserved]) + rest)[|prefix| := slot] == prefix + ([slot] + rest)
  {
    var x := ((prefix + [Reserved]) + rest)[|prefix| := slot];
    assert forall k :: 0 <= k < |x| ==> x[k] == (prefix + ([slot] + rest))[k];
  }

  lemma AppendAssociates<T>(a: seq<T>, b: seq<T>, c: seq<T>)
    ensures (a + b) + c == a + (b + c)
  {
  }

  /** One statement's expressions under construction. */
  class StatementBuilder {
    var expressions: seq<ExpressionSlot>

    constructor()
      ensures expressions == []
    {
      expressions := [];
    }

    /** `node_to_expression`: reserves the slot at `expressions.size()`
        before converting the sub-expressions, fills it, and returns its
        index; an unknown symbol leaves the reserved slot and returns the
        invalid index. */
    method NodeToExpression(node: ExpressionNode) returns (index: nat)
      modifies this
      ensures expressions == old(expressions) + Appended(node, |old(expressions)|)
      ensures index == ResultIndex(node, |old(expressions)|)
      decreases node, 1
    {
      if node.NoExpressionNode? {
        return InvalidIndex;
      }
      var expressionIndex := |expressions|;
      expressions := expressions + [Reserved];
      if node.symbol !in ExpressionSymbols {
        return InvalidIndex;
      }
      ghost var prefix := old(expressions);
      var indices := ConvertOperands(node, node.operands);
      ghost var rest := OperandsAppended(node.operands, expressionIndex + 1);
      ReplaceReserved(prefix, Converted(node.symbol, indices), rest);
      expressions := expressions[expressionIndex := Converted(node.symbol, indices)];
      return expressionIndex;
    }

    /** The loop of `node_to_expression` over the operands of `parent`. */
    method ConvertOperands(ghost parent: ExpressionNode, operands: seq<ExpressionNode>) returns (indices: seq<nat>)
      requires parent.ExpressionNode? && operands == parent.operands
      modifies this
      ensures expressions == old(expressions) + OperandsAppended(operands, |old(expressions)|)
      ensures indices == OperandIndices(operands, |old(expressions)|)
      decreases parent, 0
    {
      indices := [];
      ghost var start := expressions;
      ghost var base := |expressions|;
      for i := 0 to |operands|
        invariant expressions == start + OperandsAppended(operands[..i], base)
        invariant indices == OperandIndices(operands[..i], base)
      {
        ghost var front := OperandsAppended(operands[..i], base);
        OperandsStep(operands, i, base);
        var childIndex := NodeToExpression(operands[i]);
        AppendAssociates(start, front, Appended(operands[i], base + |front|));
        indices := indices + [childIndex];
      }
      assert operands[..|operands|] == operands;
    }
  }

  /** Every converted slot refers only to slots after it within `slots`,
      or holds the invalid index; `base` is the index of `slots[0]`. */
  predicate RefersForward(slots: seq<ExpressionSlot>, base: nat) {
    forall j, k :: 0 <= j < |slots| && slots[j].Converted? && 0 <= k < |slots[j].operands| ==>
      slots[j].operands[k] == InvalidIndex || base + j < slots[j].operands[k] < base + |slots|
  }

  lemma RefersForwardConcat(a: seq<ExpressionSlot>, b: seq<ExpressionSlot>, base: nat)
    requires RefersForward(a, base) && RefersForward(b, base + |a|)
    ensures RefersForward(a + b, base)
  {
    forall j, k | 0 <= j < |a + b| && (a + b)[j].Converted? && 0 <= k < |(a + b)[j].operands|
      ensures (a + b)[j].operands[k] == InvalidIndex || base + j < (a + b)[j].operands[k] < base + |a + b|
    {
      if j >= |a| {
        assert (a + b)[j] == b[j - |a|];
      }
    }
  }

  lemma PrependRefersForward(slot: ExpressionSlot, rest: seq<ExpressionSlot>, base: nat)
    requires slot.Converted? && IndicesWithin(slot.operands, base + 1, base + 1 + |rest|)
    requires RefersForward(rest, base + 1)
    ensures RefersForward([slot] + rest, base)
  {
    forall j, k | 0 <= j < |[slot] + rest| && ([slot] + rest)[j].Converted? && 0 <= k < |([slot] + rest)[j].operands|
      ensures ([slot] + rest)[j].operands[k] == InvalidIndex || base + j < ([slot] + rest)[j].operands[k] < base + |[slot] + rest|
    {
      if j > 0 {
        assert ([slot] + rest)[j] == rest[j - 1];
      }
    }
  }

  /** Each index lies in `[base, end)` or is the invalid index. */
  predicate IndicesWithin(indices: seq<nat>, base: nat, end: nat) {
    forall k :: 0 <= k < |indices| ==> indices[k] == InvalidIndex || base <= indices[k] < end
  }

  /** A node with a known symbol owns the slot at `base`: its result index is
      `base` and that slot holds its symbol; any other node appends at most
      the reserved slot and yields the invalid index. */
  lemma RootAtBase(node: ExpressionNode, base: nat)
    ensures node.ExpressionNode? && node.symbol in ExpressionSymbols ==>
      ResultIndex(node, base) == base && |Appended(node, base)| > 0
      && Appended(node, base)[0] == Converted(node.symbol, OperandIndices(node.operands, base + 1))
    ensures !(node.ExpressionNode? && node.symbol in ExpressionSymbols) ==>
      ResultIndex(node, base) == InvalidIndex && |Appended(node, base)| <= 1
  {
  }

  /** The slots appended for one node only refer forwards, to slots of the
      same subtree. */
  lemma {:induction false} AppendedRefersForward(node: ExpressionNode, base: nat)
    ensures RefersForward(Appended(node, base), base)
    decreases node, 1
  {
    match node
    case NoExpressionNode =>
    case ExpressionNode(symbol, operands) =>
      if symbol in ExpressionSymbols {
        var rest := OperandsAppended(operands, base + 1);
        OperandsRefersForward(operands, base + 1);
        PrependRefersForward(Converted(symbol, OperandIndices(operands, base + 1)), rest, base);
      }
  }

  /** Converting operands one after the other only refers forwards, and the
      indices returned for them lie within the appended slots. */
  lemma {:induction false} OperandsRefersForward(operands: seq<ExpressionNode>, base: nat)
    ensures RefersForward(OperandsAppended(operands, base), base)
    ensures IndicesWithin(OperandIndices(operands, base), base, base + |OperandsAppended(operands, base)|)
    decreases operands, 0
  {
    if |operands| > 0 {
      var front := operands[..|operands| - 1];
      var last := operands[|operands| - 1];
      var frontSlots := OperandsAppended(front, base);
      OperandsRefersForward(front, base);
      AppendedRefersForward(last, base + |frontSlots|);
      RefersForwardConcat(frontSlots, Appended(last, base + |frontSlots|), base);
      RootAtBase(last, base + |frontSlots|);
    }
  }

  // ----- Constants -----

  /** The type `create_c_string_type_reference(false)` builds: a pointer to
      immutable `C_char`. */
  const CStringType: TypeReference := PointerType([FundamentalTypeReference(CChar)], false)

  /** The numeric branch of `node_to_expression_constant`, with
      `parse_number_of_bits` given as `numberOfBits`. `None` is the
      default-constructed constant returned for an unsupported C suffix or
      a suffix of any other letter. */
  function NumberConstant(value: string, numberOfBits: string -> nat): (r: Option<PT.ConstantExpression>)
    ensures r.Some? ==> r.value.data == value[..|value| - |NumberSuffix(value)|]
  {
    var suffix := NumberSuffix(value);
    var t := NumberSuffixType(suffix, numberOfBits);
    if t.None? then None else Some(PT.ConstantExpression(t.value, value[..|value| - |suffix|]))
  }

  /** The type the numeric branch gives a suffix, or `None`. */
  function NumberSuffixType(suffix: string, numberOfBits: string -> nat): Option<TypeReference> {
    if |suffix| == 0 then Some(IntegerType(32, true))
    else if suffix[0] == 'i' || suffix[0] == 'u' then
      Some(IntegerType(numberOfBits(suffix[1..]), suffix[0] == 'i'))
    else if suffix[0] == 'f' then
      var bits := numberOfBits(suffix[1..]);
      Some(FundamentalTypeReference(if bits == 16 then Float16 else if bits == 64 then Float64 else Float32))
    else if suffix[0] == 'c' && PT.CSuffixType(suffix).Some? then
      Some(FundamentalTypeReference(PT.CSuffixType(suffix).value))
    else None
  }

  /** The string branch: the text between the first character and the last
      quote, typed as a C string for the suffix `c` and as a string
      otherwise. With no quote the suffix is the whole text, so `substr(1,
      ...)` of the empty remainder throws `out_of_range`. */
  function StringConstant(value: string): (r: Result<PT.ConstantExpression>)
    requires |value| < Uint64Modulus
    ensures r.Err? <==> '"' !in value
    ensures r.Ok? ==> (r.value.constantType == CStringType <==> GetStringSuffix(value) == "c")
  {
    var suffix := GetStringSuffix(value);
    var withoutSuffix := value[..|value| - |suffix|];
    if |withoutSuffix| == 0 then Err("out_of_range")
    else
      var withoutQuotes := Substr(withoutSuffix, 1, Wrap64(|withoutSuffix| - 2));
      Ok(PT.ConstantExpression(if suffix == "c" then CStringType else FundamentalTypeReference(String), withoutQuotes))
  }

  /** `node_to_expression_constant`: the choice child selects the branch;
      a missing child or an unknown choice gives the default constant. */
  function NodeToExpressionConstant(choice: Option<string>, value: string, numberOfBits: string -> nat): (r: Result<Option<PT.ConstantExpression>>)
    requires |value| < Uint64Modulus
    ensures r.Err? <==> choice == Some("String") && '"' !in value
    ensures r == Ok(None) ==> choice.None? || choice.value != "Boolean"
    ensures r.Ok? && r.value.Some? && choice == Some("Boolean") ==>
      r.value.value == PT.ConstantExpression(FundamentalTypeReference(Bool), value)
  {
    if choice.None? then Ok(None)
    else if choice.value == "Boolean" then Ok(Some(PT.ConstantExpression(FundamentalTypeReference(Bool), value)))
    else if choice.value == "Number" then Ok(NumberConstant(value, numberOfBits))
    else if choice.value == "String" then
      var c :- StringConstant(value);
      Ok(Some(c))
    else Ok(None)
  }

  /** On every suffix the language's own table accepts, the converter gives
      the same constant as that table, provided `parse_number_of_bits` reads
      the width digits as numbers. */
  lemma NumberConstantMatchesSuffixTable(data: string, suffix: string, numberOfBits: string -> nat)
    requires NoLetters(data) && (|suffix| == 0 || (IsLetter(suffix[0]) && suffix[0] != 'x'))
    requires PT.SuffixType(suffix).Ok?
    requires |suffix| > 0 && suffix[0] in {'i', 'u', 'f'} ==> JsNumbers.Number(suffix[1..]) == JsNumbers.Finite(numberOfBits(suffix[1..]) as real)
    ensures NumberConstant(data + suffix, numberOfBits) == Some(PT.ConstantExpression(PT.SuffixType(suffix).value, data))
    ensures PT.NumberToConstant(PT.Word(data + suffix, PT.Number)) == Ok(PT.ConstantExpression(PT.SuffixType(suffix).value, data))
  {
    NumberConstantOfPrinted(data, suffix, numberOfBits);
    SuffixTypesAgree(suffix, numberOfBits);
    PT.NumberWord(data, suffix);
  }

  /** A printed number `data` + `suffix` is split back into the two. */
  lemma NumberConstantOfPrinted(data: string, suffix: string, numberOfBits: string -> nat)
    requires NoLetters(data) && (|suffix| == 0 || (IsLetter(suffix[0]) && suffix[0] != 'x'))
    ensures NumberSuffixType(suffix, numberOfBits).None? ==> NumberConstant(data + suffix, numberOfBits) == None
    ensures NumberSuffixType(suffix, numberOfBits).Some? ==>
      NumberConstant(data + suffix, numberOfBits) == Some(PT.ConstantExpression(NumberSuffixType(suffix, numberOfBits).value, data))
  {
    NumberSuffixOfPrinted(data, suffix);
    var value := data + suffix;
    assert value[..|value| - |suffix|] == data;
  }

  lemma SuffixTypesAgree(suffix: string, numberOfBits: string -> nat)
    requires PT.SuffixType(suffix).Ok? && (|suffix| == 0 || suffix[0] != 'x')
    requires |suffix| > 0 && suffix[0] in {'i', 'u', 'f'} ==> JsNumbers.Number(suffix[1..]) == JsNumbers.Finite(numberOfBits(suffix[1..]) as real)
    ensures NumberSuffixType(suffix, numberOfBits) == Some(PT.SuffixType(suffix).value)
  {
  }

  /** Where the two disagree: a float width other than 16, 32 and 64
      falls back to `Float32` instead of being rejected. */
  lemma FloatWidthFallback(data: string, bits: nat, numberOfBits: string -> nat)
    requires NoLetters(data) && bits != 16 && bits != 32 && bits != 64
    requires numberOfBits(NatToString(bits)) == bits
    ensures NumberConstant(data + "f" + NatToString(bits), numberOfBits)
         == Some(PT.ConstantExpression(FundamentalTypeReference(Float32), data))
    ensures PT.NodeToConstant(PT.Word(data + "f" + NatToString(bits), PT.Number)).Err?
  {
    var suffix := "f" + NatToString(bits);
    assert data + "f" + NatToString(bits) == data + suffix;
    FloatFallbackType(bits, numberOfBits);
    NumberConstantOfPrinted(data, suffix, numberOfBits);
    PT.UnsupportedFloatWidth(data, bits);
  }

  lemma FloatFallbackType(bits: nat, numberOfBits: string -> nat)
    requires bits != 16 && bits != 64 && numberOfBits(NatToString(bits)) == bits
    ensures NumberSuffixType("f" + NatToString(bits), numberOfBits) == Some(FundamentalTypeReference(Float32))
  {
    var suffix := "f" + NatToString(bits);
    assert suffix[0] == 'f' && suffix[1..] == NatToString(bits);
  }

  /** And a `c` suffix outside the C type table gives the default constant
      where the table reports an error. */
  lemma UnknownCSuffix(data: string, suffix: string, numberOfBits: string -> nat)
    requires NoLetters(data) && |suffix| > 0 && suffix[0] == 'c' && PT.CSuffixType(suffix).None?
    ensures NumberConstant(data + suffix, numberOfBits) == None
    ensures PT.NumberToConstant(PT.Word(data + suffix, PT.Number)).Err?
  {
    assert NumberSuffixType(suffix, numberOfBits).None?;
    NumberConstantOfPrinted(data, suffix, numberOfBits);
    assert PT.SuffixType(suffix).Err?;
    PT.NumberWord(data, suffix);
  }

  /** The numeric branch as the language's table has it: an unsupported
      float width or an unknown `c` suffix is an error instead of `Float32`
      or the default constant. */
  function CheckedNumberConstant(value: string, numberOfBits: string -> nat): (r: Result<PT.ConstantExpression>)
    ensures r.Ok? ==> r.value.data == value[..|value| - |NumberSuffix(value)|]
  {
    var suffix := NumberSuffix(value);
    var t := CheckedNumberSuffixType(suffix, numberOfBits);
    if t.None? then Err("unsupported number suffix") else Ok(PT.ConstantExpression(t.value, value[..|value| - |suffix|]))
  }

  function CheckedNumberSuffixType(suffix: string, numberOfBits: string -> nat): Option<TypeReference> {
    if |suffix| > 0 && suffix[0] == 'f' then
      var bits := numberOfBits(suffix[1..]);
      if bits == 16 then Some(FundamentalTypeReference(Float16))
      else if bits == 32 then Some(FundamentalTypeReference(Float32))
      else if bits == 64 then Some(FundamentalTypeReference(Float64))
      else None
    else NumberSuffixType(suffix, numberOfBits)
  }

  /** The checked suffix rule and the table accept the same suffixes and
      give them the same type. */
  lemma CheckedSuffixTypeMatchesTable(suffix: string, numberOfBits: string -> nat)
    requires |suffix| == 0 || suffix[0] != 'x'
    requires |suffix| > 0 && suffix[0] in {'i', 'u', 'f'} ==> JsNumbers.Number(suffix[1..]) == JsNumbers.Finite(numberOfBits(suffix[1..]) as real)
    ensures CheckedNumberSuffixType(suffix, numberOfBits).Some? <==> PT.SuffixType(suffix).Ok?
    ensures PT.SuffixType(suffix).Ok? ==> CheckedNumberSuffixType(suffix, numberOfBits) == Some(PT.SuffixType(suffix).value)
  {
    if |suffix| > 0 && suffix[0] == 'f' {
      var bits := numberOfBits(suffix[1..]);
      assert PT.SuffixType(suffix) == PT.FloatSuffixType(JsNumbers.Finite(bits as real));
    } else if |suffix| > 0 && (suffix[0] == 'i' || suffix[0] == 'u') {
      var bits := numberOfBits(suffix[1..]);
      assert JsNumbers.IntegerValue(JsNumbers.Finite(bits as real)) == Some(bits);
    }
  }

  /** The checked converter accepts a printed number exactly when the
      table does, and then gives the same constant. */
  lemma CheckedNumberConstantMatchesTable(data: string, suffix: string, numberOfBits: string -> nat)
    requires NoLetters(data) && (|suffix| == 0 || (IsLetter(suffix[0]) && suffix[0] != 'x'))
    requires |suffix| > 0 && suffix[0] in {'i', 'u', 'f'} ==> JsNumbers.Number(suffix[1..]) == JsNumbers.Finite(numberOfBits(suffix[1..]) as real)
    ensures CheckedNumberConstant(data + suffix, numberOfBits).Ok? <==> PT.NumberToConstant(PT.Word(data + suffix, PT.Number)).Ok?
    ensures CheckedNumberConstant(data + suffix, numberOfBits).Ok? ==>
      CheckedNumberConstant(data + suffix, numberOfBits) == PT.NumberToConstant(PT.Word(data + suffix, PT.Number))
  {
    NumberSuffixOfPrinted(data, suffix);
    var value := data + suffix;
    assert value[..|value| - |suffix|] == data;
    CheckedSuffixTypeMatchesTable(suffix, numberOfBits);
    PT.NumberWord(data, suffix);
  }

  /** A printed string literal `"data"suffix` converts back to its text,
      and to a C string exactly for the suffix `c`. */
  lemma StringConstantOfPrinted(data: string, suffix: string)
    requires '"' !in suffix && |data| + |suffix| + 2 < Uint64Modulus
    ensures StringConstant("\"" + data + "\"" + suffix)
         == Ok(PT.ConstantExpression(if suffix == "c" then CStringType else FundamentalTypeReference(String), data))
  {
    var value := "\"" + data + "\"" + suffix;
    StringSuffixOfPrinted(data, suffix);
    var withoutSuffix := value[..|value| - |suffix|];
    assert withoutSuffix == "\"" + data + "\"";
    assert withoutSuffix[1..|withoutSuffix| - 1] == data;
  }

  /** The literals the language prints for string constants convert back to
      the same constant. */
  lemma StringConstantRoundTrip(data: string, isCString: bool)
    requires |data| + 3 < Uint64Modulus
    ensures var c := PT.ConstantExpression(if isCString then CStringType else FundamentalTypeReference(String), data);
      StringConstant(PT.ConstantToWord(c).value.value) == Ok(c)
  {
    if isCString {
      CStringConstantRoundTrip(data);
    } else {
      PlainStringConstantRoundTrip(data);
    }
  }

  lemma CStringConstantRoundTrip(data: string)
    requires |data| + 3 < Uint64Modulus
    ensures StringConstant(PT.ConstantToWord(PT.ConstantExpression(CStringType, data)).value.value)
         == Ok(PT.ConstantExpression(CStringType, data))
  {
    var printed := "\"" + data + "\"c";
    assert PT.ConstantToWord(PT.ConstantExpression(CStringType, data)) == Ok(PT.Word(printed, PT.StringWord));
    assert printed == "\"" + data + "\"" + "c";
    StringConstantOfPrinted(data, "c");
  }

  lemma PlainStringConstantRoundTrip(data: string)
    requires |data| + 3 < Uint64Modulus
    ensures StringConstant(PT.ConstantToWord(PT.ConstantExpression(FundamentalTypeReference(String), data)).value.value)
         == Ok(PT.ConstantExpression(FundamentalTypeReference(String), data))
  {
    var printed := "\"" + data + "\"";
    assert PT.ConstantToWord(PT.ConstantExpression(FundamentalTypeReference(String), data)) == Ok(PT.Word(printed, PT.StringWord));
    assert printed == "\"" + data + "\"" + "";
    StringConstantOfPrinted(data, "");
  }
}
