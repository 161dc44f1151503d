/** The java.lang.String operations the mesh core relies on, as functions over seq<char>:
    String.trim, String.split("\\s+"), String.split(" "), startsWith, contains,
    Integer.parseInt and the "%d" conversion of String.format. */
module JavaText {
  import opened Outcomes

  // ---------- character classes ----------

  /** The characters of the regular-expression class \s: space, \t, \n, \u000B, \f, \r. */
  predicate IsWhitespace(c: char) {
    c == ' ' || c == '\t' || c == '\n' || c == '\r' || c as int == 0x0B || c as int == 0x0C
  }

  /** String.trim removes every leading and trailing character at or below U+0020. */
  predicate IsTrimmable(c: char) {
    c as int <= 0x20
  }

  predicate IsDigit(c: char) {
    '0' <= c <= '9'
  }

  predicate AllDigits(s: string) {
    forall i :: 0 <= i < |s| ==> IsDigit(s[i])
  }

  predicate StartsWith(s: string, prefix: string) {
    |prefix| <= |s| && s[..|prefix|] == prefix
  }

  /** String.contains */
  predicate Contains(s: string, part: string) {
    StartsWith(s, part) || (s != [] && Contains(s[1..], part))
  }

  // ---------- String.trim ----------

  function TrimStart(s: string): (r: string)
    ensures |r| <= |s| && r == s[|s| - |r|..]
    ensures forall i :: 0 <= i < |s| - |r| ==> IsTrimmable(s[i])
    ensures r == [] || !IsTrimmable(r[0])
  {
    if |s| > 0 && IsTrimmable(s[0]) then TrimStart(s[1..]) else s
  }

  function TrimEnd(s: string): (r: string)
    ensures |r| <= |s| && r == s[..|r|]
    ensures forall i :: |r| <= i < |s| ==> IsTrimmable(s[i])
    ensures r == [] || !IsTrimmable(r[|r| - 1])
  {
    if |s| > 0 && IsTrimmable(s[|s| - 1]) then TrimEnd(s[..|s| - 1]) else s
  }

  /** A trimmed string neither starts nor ends with a character at or below U+0020. */
  predicate IsTrimmed(s: string) {
    s == [] || (!IsTrimmable(s[0]) && !IsTrimmable(s[|s| - 1]))
  }

  function Trim(s: string): (r: string)
    ensures IsTrimmed(r)
    ensures |r| <= |s|
    ensures IsTrimmed(s) ==> r == s
  {
    var t := TrimStart(s);
    assert IsTrimmed(s) && s != [] ==> t == s;
    var r := TrimEnd(t);
    assert IsTrimmed(s) && s != [] ==> r == s;
    assert r != [] ==> t != [] && r[0] == t[0];
    r
  }

  /** s.trim().isEmpty() exactly when every character of s is at or below U+0020. */
  lemma TrimIsEmptyIff(s: string)
    ensures Trim(s) == [] <==> forall i :: 0 <= i < |s| ==> IsTrimmable(s[i])
  {
    var t := TrimStart(s);
    if !forall i :: 0 <= i < |s| ==> IsTrimmable(s[i]) {
      var k :| 0 <= k < |s| && !IsTrimmable(s[k]);
      assert k >= |s| - |t|;
      assert t[k - (|s| - |t|)] == s[k];
    }
  }

  // ---------- String.split("\\s+") ----------

  /** The length of the longest prefix of s free of \s characters. */
  function WordLength(s: string): (n: nat)
    ensures n <= |s|
  {
    if |s| > 0 && !IsWhitespace(s[0]) then 1 + WordLength(s[1..]) else 0
  }

  /** A token of a whitespace split: non-empty and free of \s characters. */
  predicate IsWord(w: string) {
    w != [] && forall i :: 0 <= i < |w| ==> !IsWhitespace(w[i])
  }

  /** The maximal runs of non-\s characters of s, in order. */
  function Tokens(s: string): (r: seq<string>)
    decreases |s|
  {
    if s == [] then []
    else if IsWhitespace(s[0]) then Tokens(s[1..])
    else
      var n := WordLength(s);
      [s[..n]] + Tokens(s[n..])
  }

  /** s.split("\\s+") with Java's rules: no match gives [s]; a match at position 0 gives a
      leading empty string; trailing empty strings are removed. */
  function SplitWhitespace(s: string): seq<string> {
    var t := Tokens(s);
    if t == [] then (if s == [] then [""] else [])
    else if IsWhitespace(s[0]) then [""] + t
    else t
  }

  // ---------- String.split(" ") ----------

  /** The pieces of s between occurrences of sep (one more piece than there are separators). */
  function Pieces(s: string, sep: char): (r: seq<string>)
    ensures |r| >= 1
    ensures forall i :: 0 <= i < |r| ==> sep !in r[i]
  {
    if s == [] then [""]
    else
      var rest := Pieces(s[1..], sep);
      if s[0] == sep then [""] + rest else [[s[0]] + rest[0]] + rest[1..]
  }

  /** The inverse of Pieces: the pieces glued back together with sep. */
  function Join(pieces: seq<string>, sep: char): string
    requires |pieces| >= 1
  {
    if |pieces| == 1 then pieces[0] else pieces[0] + [sep] + Join(pieces[1..], sep)
  }

  function StripTrailingEmpty(ps: seq<string>): (r: seq<string>)
    ensures |r| <= |ps| && r == ps[..|r|]
    ensures r == [] || r[|r| - 1] != ""
    ensures forall i :: |r| <= i < |ps| ==> ps[i] == ""
  {
    if |ps| > 0 && ps[|ps| - 1] == "" then StripTrailingEmpty(ps[..|ps| - 1]) else ps
  }

  /** s.split(" "): no occurrence gives [s]; otherwise the pieces without trailing empty ones. */
  function SplitSpace(s: string): seq<string> {
    if ' ' !in s then [s] else StripTrailingEmpty(Pieces(s, ' '))
  }

  /** words separated by single spaces, which is what "%d %d ..." writes */
  function Unwords(words: seq<string>): string
    requires |words| >= 1
  {
    Join(words, ' ')
  }

  lemma UnwordsThree(a: string, b: string, c: string)
    ensures Unwords([a, b, c]) == a + " " + b + " " + c
  {
    assert [a, b, c][1..] == [b, c] && [b, c][1..] == [c];
    assert Join([b, c], ' ') == b + " " + c;
    assert Join([a, b, c], ' ') == a + " " + (b + " " + c);
  }

  lemma UnwordsFour(a: string, b: string, c: string, d: string)
    ensures Unwords([a, b, c, d]) == a + " " + b + " " + c + " " + d
  {
    assert [a, b, c, d][1..] == [b, c, d];
    UnwordsThree(b, c, d);
    assert Join([a, b, c, d], ' ') == a + " " + (b + " " + c + " " + d);
  }

  // ---------- Integer.parseInt and %d ----------

  const IntMin: int := -0x8000_0000
  const IntMax: int := 0x7fff_ffff

  predicate IsInt32(n: int) {
    IntMin <= n <= IntMax
  }

  function DigitValue(c: char): nat
    requires IsDigit(c)
  {
    (c as int) - ('0' as int)
  }

  function DigitChar(d: nat): (c: char)
    requires d < 10
    ensures IsDigit(c) && DigitValue(c) == d
  {
    (('0' as int) + d) as char
  }

  /** The value of s read as a decimal digit string, most significant digit first; None
      when some character is not a digit. */
  function DecimalValue(s: string): (r: Option<nat>)
  {
    if s == [] then Some(0)
    else if !IsDigit(s[|s| - 1]) then None
    else match DecimalValue(s[..|s| - 1])
      case None => None
      case Some(v) => Some(v * 10 + DigitValue(s[|s| - 1]))
  }

  /** Integer.parseInt(s): an optional '+' or '-', at least one decimal digit, and a value
      within the 32-bit range; anything else is a NumberFormatException (None). */
  function ParseInt(s: string): (r: Option<int>)
    ensures r.Some? ==> IsInt32(r.value)
  {
    if s == [] then None
    else
      var digits := if s[0] == '-' || s[0] == '+' then s[1..] else s;
      if digits == [] then None
      else match DecimalValue(digits)
        case None => None
        case Some(m) =>
          var v: int := if s[0] == '-' then -(m as int) else m;
          if IsInt32(v) then Some(v) else None
  }

  function NatToString(n: nat): (r: string)
    ensures r != [] && AllDigits(r)
  {
    if n < 10 then [DigitChar(n)] else NatToString(n / 10) + [DigitChar(n % 10)]
  }

  /** String.format(Locale.US, "%d", n) */
  function IntToString(n: int): (r: string)
  {
    if n < 0 then "-" + NatToString(-n) else NatToString(n)
  }

  // ---------- indexOf, lastIndexOf, substring, endsWith, replace ----------

  /** s.indexOf(c, from) for from >= 0: the first position at or after from holding c, or -1. */
  function IndexOfFrom(s: string, c: char, from: nat): (r: int)
    ensures r == -1 || (from <= r < |s| && s[r] == c)
    ensures forall i :: from <= i < |s| && (r == -1 || i < r) ==> s[i] != c
    decreases |s| - from
  {
    if from >= |s| then -1 else if s[from] == c then from else IndexOfFrom(s, c, from + 1)
  }

  /** s.lastIndexOf(c): the last position holding c, or -1. */
  function LastIndexOf(s: string, c: char): (r: int)
    ensures -1 <= r < |s|
    ensures r >= 0 ==> s[r] == c
    ensures forall i :: r < i < |s| ==> s[i] != c
  {
    if s == [] then -1 else if s[|s| - 1] == c then |s| - 1 else LastIndexOf(s[..|s| - 1], c)
  }

  /** s.substring(begin, end): a StringIndexOutOfBoundsException unless
      0 <= begin <= end <= s.length(). */
  function Substring(s: string, begin: int, end: int): (r: Result<string>)
    ensures r.Ok? <==> 0 <= begin <= end <= |s|
    ensures r.Ok? ==> |r.value| == end - begin && forall i :: 0 <= i < |r.value| ==> r.value[i] == s[begin + i]
  {
    if 0 <= begin <= end <= |s| then Ok(s[begin..end]) else Err(BadSubstring(begin, end))
  }

  predicate EndsWith(s: string, suffix: string) {
    |suffix| <= |s| && s[|s| - |suffix|..] == suffix
  }

  /** s.replace(String.valueOf(c), ""): s with every c removed, the rest in order. */
  function RemoveChar(s: string, c: char): (r: string)
    ensures c !in r
    ensures forall x :: x in r ==> x in s
    ensures c !in s ==> r == s
  {
    if s == [] then [] else (if s[0] == c then [] else [s[0]]) + RemoveChar(s[1..], c)
  }

  /** part occurs in s starting at position k. */
  predicate OccursAt(s: string, part: string, k: int) {
    0 <= k && k + |part| <= |s| && s[k..k + |part|] == part
  }

  // ---------- lemmas ----------

  lemma {:induction false} DecimalValueOfNatToString(n: nat)
    ensures DecimalValue(NatToString(n)) == Some(n)
  {
    if n >= 10 {
      DecimalValueOfNatToString(n / 10);
      var s := NatToString(n);
      assert s[..|s| - 1] == NatToString(n / 10);
    }
  }

  /** What "%d" writes, Integer.parseInt reads back. */
  lemma {:induction false} ParseIntOfIntToString(n: int)
    requires IsInt32(n)
    ensures ParseInt(IntToString(n)) == Some(n)
  {
    var s := IntToString(n);
    if n < 0 {
      var m: nat := -n;
      DecimalValueOfNatToString(m);
      assert s == "-" + NatToString(m);
      assert s[0] == '-' && s[1..] == NatToString(m);
    } else {
      DecimalValueOfNatToString(n);
      assert s == NatToString(n);
      assert IsDigit(s[0]);
    }
  }

  lemma {:induction false} IntToStringIsWord(n: int)
    ensures IsWord(IntToString(n)) && ' ' !in IntToString(n)
  {
    var s := IntToString(n);
    assert forall i :: 0 <= i < |s| ==> s[i] == '-' || IsDigit(s[i]);
  }

  /** Joining the pieces of s restores s. */
  lemma {:induction false} JoinPieces(s: string, sep: char)
    ensures Join(Pieces(s, sep), sep) == s
  {
    if s != [] {
      JoinPieces(s[1..], sep);
      var rest := Pieces(s[1..], sep);
      if s[0] != sep {
        if |rest| > 1 {
          assert rest == [rest[0]] + rest[1..];
          assert Join(rest, sep) == rest[0] + [sep] + Join(rest[1..], sep);
          var r := Pieces(s, sep);
          assert r[1..] == rest[1..];
          assert Join(r, sep) == ([s[0]] + rest[0]) + [sep] + Join(rest[1..], sep);
        }
      }
    }
  }

  /** A string without separators is one piece. */
  lemma {:induction false} PiecesOfPiece(w: string, sep: char)
    requires sep !in w
    ensures Pieces(w, sep) == [w]
  {
    if w != [] {
      PiecesOfPiece(w[1..], sep);
      assert [w[0]] + w[1..] == w;
    }
  }

  /** Splitting peels off a separator-free first piece. */
  lemma {:induction false} PiecesCons(w: string, sep: char, rest: string)
    requires sep !in w
    ensures Pieces(w + [sep] + rest, sep) == [w] + Pieces(rest, sep)
  {
    if w == [] {
      assert w + [sep] + rest == [sep] + rest;
      assert ([sep] + rest)[1..] == rest;
    } else {
      var s := w + [sep] + rest;
      assert s[1..] == w[1..] + [sep] + rest;
      PiecesCons(w[1..], sep, rest);
      assert [w[0]] + w[1..] == w;
    }
  }

  /** The pieces of words joined by a separator, with one more separator at the end. */
  lemma {:induction false} PiecesOfJoinTerminated(words: seq<string>, sep: char)
    requires |words| >= 1
    requires forall i :: 0 <= i < |words| ==> sep !in words[i]
    ensures Pieces(Join(words, sep) + [sep], sep) == words + [""]
  {
    if |words| == 1 {
      PiecesCons(words[0], sep, []);
      assert Join(words, sep) + [sep] == words[0] + [sep] + [];
      assert Pieces([], sep) == [""];
    } else {
      var tail := Join(words[1..], sep) + [sep];
      assert Join(words, sep) + [sep] == words[0] + [sep] + tail;
      PiecesCons(words[0], sep, tail);
      PiecesOfJoinTerminated(words[1..], sep);
      assert words == [words[0]] + words[1..];
    }
  }

  /** Java's s.split(" ") of "w1 w2 ... wk " is [w1, ..., wk] when every wi is a
      non-empty string without spaces. */
  lemma {:induction false} SplitSpaceOfTerminatedWords(words: seq<string>)
    requires |words| >= 1
    requires forall i :: 0 <= i < |words| ==> words[i] != "" && ' ' !in words[i]
    ensures SplitSpace(Unwords(words) + " ") == words
  {
    PiecesOfJoinTerminated(words, ' ');
    var s := Unwords(words) + " ";
    assert s[|s| - 1] == ' ';
    var ps := words + [""];
    assert StripTrailingEmpty(ps[..|ps| - 1]) == StripTrailingEmpty(words);
    assert ps[..|ps| - 1] == words;
  }

  /** The word length of s is n when its first n characters are not \s and the next one,
      if any, is. */
  lemma {:induction false} WordLengthAt(s: string, n: nat)
    requires n <= |s|
    requires forall i :: 0 <= i < n ==> !IsWhitespace(s[i])
    requires n == |s| || IsWhitespace(s[n])
    ensures WordLength(s) == n
  {
    if n > 0 {
      WordLengthAt(s[1..], n - 1);
    }
  }

  /** Every token is non-empty and free of \s characters. */
  lemma {:induction false} TokensAreWords(s: string)
    ensures forall i :: 0 <= i < |Tokens(s)| ==> IsWord(Tokens(s)[i])
    decreases |s|
  {
    if s != [] {
      if IsWhitespace(s[0]) {
        TokensAreWords(s[1..]);
      } else {
        var n := WordLength(s);
        WordLengthWord(s);
        TokensAreWords(s[n..]);
        var w := s[..n];
        assert IsWord(w) by {
          forall i | 0 <= i < |w| ensures !IsWhitespace(w[i]) {
            assert w[i] == s[i];
          }
        }
      }
    }
  }

  /** The word length covers non-\s characters only and ends at a \s character or the end. */
  lemma {:induction false} WordLengthWord(s: string)
    ensures forall i :: 0 <= i < WordLength(s) ==> !IsWhitespace(s[i])
    ensures WordLength(s) < |s| ==> IsWhitespace(s[WordLength(s)])
    ensures s != [] && !IsWhitespace(s[0]) ==> WordLength(s) > 0
    decreases |s|
  {
    if |s| > 0 && !IsWhitespace(s[0]) {
      WordLengthWord(s[1..]);
      assert forall i :: 1 <= i < WordLength(s) ==> s[i] == s[1..][i - 1];
    }
  }

  /** A string with no whitespace inside and at least one character is a single token. */
  lemma {:induction false} TokensOfWord(w: string)
    requires IsWord(w)
    ensures Tokens(w) == [w]
  {
    WordLengthAt(w, |w|);
    assert w[..|w|] == w && w[|w|..] == [];
  }

  /** Tokens skip a word and the whitespace after it. */
  lemma {:induction false} TokensCons(w: string, rest: string)
    requires IsWord(w)
    requires rest != [] && IsWhitespace(rest[0])
    ensures Tokens(w + rest) == [w] + Tokens(rest)
  {
    var s := w + rest;
    assert s[|w|] == rest[0] && s[0] == w[0];
    WordLengthAt(s, |w|);
    assert s[..|w|] == w && s[|w|..] == rest;
  }

  /** The whitespace tokens of words joined by single spaces, with or without a trailing space,
      are the words. */
  lemma {:induction false} TokensOfUnwords(words: seq<string>, trailing: bool)
    requires |words| >= 1
    requires forall i :: 0 <= i < |words| ==> IsWord(words[i])
    ensures Tokens(Unwords(words) + (if trailing then " " else "")) == words
  {
    var tail := if trailing then " " else "";
    var w := words[0];
    assert IsWord(w);
    if |words| == 1 {
      assert Unwords(words) == w;
      if trailing {
        TokensCons(w, " ");
        TokensOfBlank();
      } else {
        assert w + tail == w;
        TokensOfWord(w);
      }
    } else {
      var more := Unwords(words[1..]) + tail;
      var rest := " " + more;
      assert Unwords(words) == w + [' '] + Unwords(words[1..]);
      assert Unwords(words) + tail == w + rest;
      var t1 := Tokens(w + rest);
      TokensCons(w, rest);
      assert t1 == [w] + Tokens(rest);
      TokensSkipSpace(more);
      TokensOfUnwords(words[1..], trailing);
      assert Tokens(rest) == words[1..];
      assert t1 == words;
    }
  }

  lemma {:induction false} TokensOfBlank()
    ensures Tokens(" ") == []
  {
    var blank: string := " ";
    assert IsWhitespace(blank[0]) && blank[1..] == [];
  }

  lemma {:induction false} TokensSkipSpace(s: string)
    ensures Tokens(" " + s) == Tokens(s)
  {
    assert (" " + s)[1..] == s;
  }

  /** String.contains means an occurrence at some position. */
  lemma {:induction false} ContainsIff(s: string, part: string)
    ensures Contains(s, part) <==> exists k :: OccursAt(s, part, k)
    decreases |s|
  {
    if Contains(s, part) {
      if StartsWith(s, part) {
        assert OccursAt(s, part, 0);
      } else {
        ContainsIff(s[1..], part);
        var k :| OccursAt(s[1..], part, k);
        assert s[1..][k..k + |part|] == s[k + 1..k + 1 + |part|];
        assert OccursAt(s, part, k + 1);
      }
    }
    if exists k :: OccursAt(s, part, k) {
      var k :| OccursAt(s, part, k);
      if k > 0 {
        assert s[1..][k - 1..k - 1 + |part|] == s[k..k + |part|];
        assert OccursAt(s[1..], part, k - 1);
        ContainsIff(s[1..], part);
      }
    }
  }

  /** Words joined by a separator split back into the words. */
  lemma {:induction false} PiecesOfJoin(words: seq<string>, sep: char)
    requires |words| >= 1
    requires forall i :: 0 <= i < |words| ==> sep !in words[i]
    ensures Pieces(Join(words, sep), sep) == words
  {
    if |words| == 1 {
      PiecesOfPiece(words[0], sep);
    } else {
      PiecesCons(words[0], sep, Join(words[1..], sep));
      PiecesOfJoin(words[1..], sep);
      assert words == [words[0]] + words[1..];
    }
  }

  /** Java's s.split(" ") of "w1 w2 ... wk" is [w1, ..., wk] when every wi is a non-empty
      string without spaces. */
  lemma {:induction false} SplitSpaceOfWords(words: seq<string>)
    requires |words| >= 1
    requires forall i :: 0 <= i < |words| ==> words[i] != "" && ' ' !in words[i]
    ensures SplitSpace(Unwords(words)) == words
  {
    PiecesOfJoin(words, ' ');
    var s := Unwords(words);
    if ' ' !in s {
      PiecesOfPiece(s, ' ');
    }
  }

  /** "%d" neither starts nor ends with a character String.trim removes. */
  lemma IntToStringEnds(n: int)
    ensures var s := IntToString(n); s != [] && !IsTrimmable(s[0]) && !IsTrimmable(s[|s| - 1])
  {
    var s := IntToString(n);
    if n < 0 {
      assert s == "-" + NatToString(-n);
    }
  }

  /** On a trimmed string, split("\\s+") gives [""] for the empty string and its tokens
      otherwise: the leading-empty-string rule of Java never fires. */
  lemma {:induction false} SplitWhitespaceOfTrimmed(s: string)
    requires IsTrimmed(s)
    ensures SplitWhitespace(s) == if s == [] then [""] else Tokens(s)
  {
    if s != [] {
      assert !IsWhitespace(s[0]);
    }
  }
}
