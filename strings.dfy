/** The few operations on Rust `str` that the loader relies on: `trim`, `lines`,
    `split(char)`, `starts_with`/`ends_with` and `replace("\\\"", "\"")`.
    A Rust `String` is UTF-8; since every character the loader inspects is ASCII,
    a sequence of Unicode scalar values (`string`) models it exactly. */
module Strings {

  /** `char::is_whitespace`: the Unicode White_Space property, which `str::trim` uses. */
  predicate IsWhitespace(c: char) {
    ('\t' <= c <= '\r') || c == ' ' || c == '\U{85}' || c == '\U{A0}' || c == '\U{1680}'
    || ('\U{2000}' <= c <= '\U{200A}') || c == '\U{2028}' || c == '\U{2029}'
    || c == '\U{202F}' || c == '\U{205F}' || c == '\U{3000}'
  }

  predicate AllWhitespace(s: string) {
    forall i :: 0 <= i < |s| ==> IsWhitespace(s[i])
  }

  predicate StartsWith(s: string, c: char) {
    |s| > 0 && s[0] == c
  }

  predicate EndsWith(s: string, c: char) {
    |s| > 0 && s[|s| - 1] == c
  }

  /** Number of occurrences of `c` in `s`. */
  function Count(s: string, c: char): (n: nat)
    ensures n <= |s|
    ensures n == 0 <==> c !in s
  {
    if s == [] then 0 else (if s[0] == c then 1 else 0) + Count(s[1..], c)
  }

  /** Occurrences in a concatenation add up. */
  lemma {:induction false} CountConcat(a: string, b: string, c: char)
    ensures Count(a + b, c) == Count(a, c) + Count(b, c)
    decreases |a|
  {
    if a == [] {
      assert a + b == b;
    } else {
      assert (a + b)[0] == a[0] && (a + b)[1..] == a[1..] + b;
      CountConcat(a[1..], b, c);
    }
  }

  // ---------------------------------------------------------------------------
  // trim

  /** The number of whitespace characters `trim_start` removes. */
  function LeadingSpace(s: string): (n: nat)
    ensures n <= |s|
    ensures forall i :: 0 <= i < n ==> IsWhitespace(s[i])
    ensures n < |s| ==> !IsWhitespace(s[n])
    decreases |s|
  {
    if s != [] && IsWhitespace(s[0]) then 1 + LeadingSpace(s[1..]) else 0
  }

  /** The number of whitespace characters `trim_end` removes. */
  function TrailingSpace(s: string): (n: nat)
    ensures n <= |s|
    ensures forall i :: |s| - n <= i < |s| ==> IsWhitespace(s[i])
    ensures n < |s| ==> !IsWhitespace(s[|s| - 1 - n])
    decreases |s|
  {
    if s != [] && IsWhitespace(s[|s| - 1]) then 1 + TrailingSpace(s[..|s| - 1]) else 0
  }

  /** `str::trim`: the text between the leading and the trailing whitespace. */
  function Trim(s: string): (r: string)
    ensures |r| <= |s|
    ensures r == [] || (!IsWhitespace(r[0]) && !IsWhitespace(r[|r| - 1]))
    ensures AllWhitespace(s) <==> r == []
  {
    var start := LeadingSpace(s);
    if start == |s| then []
    else s[start..|s| - TrailingSpace(s)]
  }

  lemma {:induction false} LeadingSpaceOf(lead: string, rest: string)
    requires AllWhitespace(lead)
    requires rest == [] || !IsWhitespace(rest[0])
    ensures LeadingSpace(lead + rest) == |lead|
    decreases |lead|
  {
    if lead == [] {
      assert lead + rest == rest;
    } else {
      assert (lead + rest)[0] == lead[0];
      assert (lead + rest)[1..] == lead[1..] + rest;
      LeadingSpaceOf(lead[1..], rest);
    }
  }

  lemma {:induction false} TrailingSpaceOf(init: string, trail: string)
    requires AllWhitespace(trail)
    requires init == [] || !IsWhitespace(init[|init| - 1])
    ensures TrailingSpace(init + trail) == |trail|
    decreases |trail|
  {
    if trail == [] {
      assert init + trail == init;
    } else {
      var s := init + trail;
      assert s[|s| - 1] == trail[|trail| - 1];
      assert s[..|s| - 1] == init + trail[..|trail| - 1];
      TrailingSpaceOf(init, trail[..|trail| - 1]);
    }
  }

  /** `trim` removes exactly the whitespace margins: whatever text lies between two
      runs of whitespace and neither starts nor ends with whitespace is the result. */
  lemma TrimOf(lead: string, body: string, trail: string)
    requires AllWhitespace(lead) && AllWhitespace(trail)
    requires body == [] || (!IsWhitespace(body[0]) && !IsWhitespace(body[|body| - 1]))
    ensures Trim(lead + body + trail) == body
  {
    var s := lead + body + trail;
    if body == [] {
      assert s == lead + trail;
      assert forall i :: 0 <= i < |s| ==> s[i] == if i < |lead| then lead[i] else trail[i - |lead|];
    } else {
      assert s == lead + (body + trail);
      LeadingSpaceOf(lead, body + trail);
      assert (lead + body)[|lead + body| - 1] == body[|body| - 1];
      TrailingSpaceOf(lead + body, trail);
      assert s[|lead|..|s| - |trail|] == body;
    }
  }

  /** A text with no whitespace at either end is left alone by `trim`. */
  lemma TrimUnpadded(s: string)
    requires s == [] || (!IsWhitespace(s[0]) && !IsWhitespace(s[|s| - 1]))
    ensures Trim(s) == s
  {
    assert s == [] + s + [];
    TrimOf([], s, []);
  }

  // ---------------------------------------------------------------------------
  // split on one character, and its inverse

  /** Joins non-empty `parts` with `sep` between neighbours. */
  function Join(parts: seq<string>, sep: char): (s: string)
    requires |parts| >= 1
  {
    if |parts| == 1 then parts[0] else parts[0] + [sep] + Join(parts[1..], sep)
  }

  /** `str::split(sep)`: every occurrence of `sep` ends a piece, so `n` separators
      give `n + 1` pieces, empty ones included, and no piece holds a separator. */
  function Split(s: string, sep: char): (parts: seq<string>)
    ensures |parts| == Count(s, sep) + 1
    ensures forall i :: 0 <= i < |parts| ==> sep !in parts[i]
    decreases |s|
  {
    if s == [] then [[]]
    else
      var rest := Split(s[1..], sep);
      if s[0] == sep then [[]] + rest
      else [[s[0]] + rest[0]] + rest[1..]
  }

  lemma JoinCons(p: string, rest: seq<string>, sep: char)
    requires |rest| >= 1
    ensures Join([p] + rest, sep) == p + [sep] + Join(rest, sep)
  {
    assert ([p] + rest)[1..] == rest;
  }

  /** Putting a character in front of the first piece puts it in front of the join. */
  lemma JoinPrefix(c: char, rest: seq<string>, sep: char)
    requires |rest| >= 1
    ensures Join([[c] + rest[0]] + rest[1..], sep) == [c] + Join(rest, sep)
  {
    if |rest| > 1 {
      JoinCons([c] + rest[0], rest[1..], sep);
      JoinCons(rest[0], rest[1..], sep);
      assert [rest[0]] + rest[1..] == rest;
    } else {
      assert [[c] + rest[0]] + rest[1..] == [[c] + rest[0]];
    }
  }

  /** Joining the pieces with the separator gives back the text. */
  lemma {:induction false} JoinSplit(s: string, sep: char)
    ensures Join(Split(s, sep), sep) == s
    decreases |s|
  {
    if s != [] {
      var rest := Split(s[1..], sep);
      JoinSplit(s[1..], sep);
      if s[0] == sep {
        JoinCons([], rest, sep);
      } else {
        JoinPrefix(s[0], rest, sep);
      }
      assert [s[0]] + s[1..] == s;
    }
  }

  lemma {:induction false} SplitUnseparated(s: string, sep: char)
    requires sep !in s
    ensures Split(s, sep) == [s]
    decreases |s|
  {
    if s != [] {
      assert sep !in s[1..] by { assert forall c :: c in s[1..] ==> c in s; }
      SplitUnseparated(s[1..], sep);
      assert [s[0]] + s[1..] == s;
    }
  }

  /** A character other than the separator joins the first piece. */
  lemma SplitFront(c: char, t: string, sep: char)
    requires c != sep
    ensures Split([c] + t, sep) == [[c] + Split(t, sep)[0]] + Split(t, sep)[1..]
  {
    assert ([c] + t)[1..] == t;
  }

  /** A separator after a piece free of separators ends exactly that piece. */
  lemma {:induction false} SplitAfterPiece(a: string, sep: char, b: string)
    requires sep !in a
    ensures Split(a + [sep] + b, sep) == [a] + Split(b, sep)
    decreases |a|
  {
    if a == [] {
      assert a + [sep] + b == [sep] + b;
      assert ([sep] + b)[1..] == b;
    } else {
      var t := a[1..] + [sep] + b;
      assert a + [sep] + b == [a[0]] + t;
      assert sep !in a[1..] by { assert forall c :: c in a[1..] ==> c in a; }
      SplitAfterPiece(a[1..], sep, b);
      SplitFront(a[0], t, sep);
      assert [a[0]] + a[1..] == a;
    }
  }

  /** A line with one separator splits into the text before it and the text after it. */
  lemma SplitPair(a: string, sep: char, b: string)
    requires sep !in a && sep !in b
    ensures Split(a + [sep] + b, sep) == [a, b]
  {
    SplitAfterPiece(a, sep, b);
    SplitUnseparated(b, sep);
  }

  /** `split` undoes `Join` whenever no piece contains the separator. */
  lemma {:induction false} SplitJoin(parts: seq<string>, sep: char)
    requires |parts| >= 1
    requires forall p :: p in parts ==> sep !in p
    ensures Split(Join(parts, sep), sep) == parts
    decreases |parts|
  {
    if |parts| == 1 {
      assert parts[0] in parts;
      SplitUnseparated(parts[0], sep);
    } else {
      var tail := parts[1..];
      assert parts[0] in parts;
      assert forall p :: p in tail ==> p in parts;
      SplitJoin(tail, sep);
      assert Join(parts, sep) == parts[0] + [sep] + Join(tail, sep);
      SplitAfterPiece(parts[0], sep, Join(tail, sep));
      assert [parts[0]] + tail == parts;
    }
  }

  // ---------------------------------------------------------------------------
  // lines

  /** Removes one trailing carriage return. */
  function StripCr(s: string): (r: string)
    ensures s == r || s == r + ['\r']
    ensures |r| < |s| <==> EndsWith(s, '\r')
  {
    if EndsWith(s, '\r') then s[..|s| - 1] else s
  }

  /** `str::lines`: the pieces between line feeds; a piece that a line feed ends
      loses one trailing carriage return, and a final empty piece is not a line. */
  function Lines(s: string): (ls: seq<string>)
    ensures forall i :: 0 <= i < |ls| ==> '\n' !in ls[i]
    ensures s == [] ==> ls == []
  {
    var pieces := Split(s, '\n');
    var ended := pieces[..|pieces| - 1];
    var last := pieces[|pieces| - 1];
    seq(|ended|, i requires 0 <= i < |ended| => StripCr(ended[i]))
      + (if last == [] then [] else [last])
  }

  /** `lines` gives back the pieces between line feeds when none of the pieces
      a line feed ends has a trailing carriage return and the last is not empty. */
  lemma LinesOfPieces(text: string, pieces: seq<string>)
    requires Split(text, '\n') == pieces
    requires pieces[|pieces| - 1] != []
    requires forall i :: 0 <= i < |pieces| - 1 ==> !EndsWith(pieces[i], '\r')
    ensures Lines(text) == pieces
  {
    LinesOfStripped(text, pieces, pieces);
  }

  /** Joining one more piece at the end appends a separator and that piece. */
  lemma {:induction false} JoinSnoc(parts: seq<string>, p: string, sep: char)
    requires |parts| >= 1
    ensures Join(parts + [p], sep) == Join(parts, sep) + [sep] + p
    decreases |parts|
  {
    if |parts| == 1 {
      assert parts + [p] == [parts[0], p];
      assert [parts[0], p][1..] == [p];
    } else {
      assert (parts + [p])[1..] == parts[1..] + [p];
      JoinSnoc(parts[1..], p, sep);
    }
  }

  /** Lines written with `\n` between them and no line feed after the last one
      are read back as they were, provided the last is not empty and no earlier
      one ends in a carriage return. */
  lemma LinesJoin(ls: seq<string>)
    requires |ls| >= 1
    requires forall i :: 0 <= i < |ls| ==> '\n' !in ls[i]
    requires ls[|ls| - 1] != []
    requires forall i :: 0 <= i < |ls| - 1 ==> !EndsWith(ls[i], '\r')
    ensures Lines(Join(ls, '\n')) == ls
  {
    SplitJoin(ls, '\n');
    LinesOfPieces(Join(ls, '\n'), ls);
  }

  /** A line feed after the last line adds no line: lines that each end with `\n`
      are read back as they were, the last one included even when it is empty. */
  lemma LinesJoinTerminated(ls: seq<string>)
    requires |ls| >= 1
    requires forall i :: 0 <= i < |ls| ==> '\n' !in ls[i]
    requires forall i :: 0 <= i < |ls| ==> !EndsWith(ls[i], '\r')
    ensures Lines(Join(ls, '\n') + "\n") == ls
  {
    var pieces := ls + [[]];
    var joined := Join(ls, '\n');
    JoinSnoc(ls, [], '\n');
    assert joined + ['\n'] + [] == joined + "\n";
    assert forall i :: 0 <= i < |pieces| ==> '\n' !in pieces[i];
    assert forall p :: p in pieces ==> '\n' !in p;
    SplitJoin(pieces, '\n');
    LinesEndedByFeed(joined + "\n", ls);
  }

  /** Pieces none of which ends in a carriage return, followed by an empty piece,
      are the lines of a text that ends with a line feed. */
  lemma LinesEndedByFeed(text: string, ls: seq<string>)
    requires Split(text, '\n') == ls + [[]]
    requires forall i :: 0 <= i < |ls| ==> !EndsWith(ls[i], '\r')
    ensures Lines(text) == ls
  {
    var pieces := ls + [[]];
    assert pieces[..|pieces| - 1] == ls;
    assert pieces[|pieces| - 1] == [];
    assert forall i :: 0 <= i < |ls| ==> StripCr(ls[i]) == ls[i];
  }

  /** The lines with `\r` appended to every line but the last, as a file written
      with CRLF line endings holds them. */
  function CrlfEnded(ls: seq<string>): (r: seq<string>)
    ensures |r| == |ls|
  {
    seq(|ls|, i requires 0 <= i < |ls| => if i < |ls| - 1 then ls[i] + ['\r'] else ls[i])
  }

  /** CRLF line endings are read as line endings: the carriage return before each
      line feed is dropped, whatever the lines end with. */
  lemma LinesCrlf(ls: seq<string>)
    requires |ls| >= 1
    requires forall i :: 0 <= i < |ls| ==> '\n' !in ls[i]
    requires ls[|ls| - 1] != []
    ensures Lines(Join(CrlfEnded(ls), '\n')) == ls
  {
    LinesOfCrlf(CrlfEnded(ls), ls);
  }

  /** Lines each followed by `\r\n`, but for a non-empty last one, are read back. */
  lemma LinesOfCrlf(pieces: seq<string>, ls: seq<string>)
    requires |pieces| == |ls| >= 1
    requires forall i :: 0 <= i < |ls| ==> '\n' !in ls[i]
    requires forall i :: 0 <= i < |ls| - 1 ==> pieces[i] == ls[i] + ['\r']
    requires pieces[|ls| - 1] == ls[|ls| - 1] != []
    ensures Lines(Join(pieces, '\n')) == ls
  {
    forall i | 0 <= i < |ls|
      ensures '\n' !in pieces[i]
      ensures i < |ls| - 1 ==> StripCr(pieces[i]) == ls[i]
    {
    }
    forall p | p in pieces
      ensures '\n' !in p
    {
      var i :| 0 <= i < |pieces| && pieces[i] == p;
    }
    SplitJoin(pieces, '\n');
    LinesOfStripped(Join(pieces, '\n'), pieces, ls);
  }

  /** The lines of a text whose last piece is not empty are its pieces, each
      piece that a line feed ends without its trailing carriage return. */
  lemma LinesOfStripped(text: string, pieces: seq<string>, ls: seq<string>)
    requires Split(text, '\n') == pieces
    requires |ls| == |pieces| && ls[|ls| - 1] == pieces[|pieces| - 1] != []
    requires forall i :: 0 <= i < |ls| - 1 ==> StripCr(pieces[i]) == ls[i]
    ensures Lines(text) == ls
  {
    var n := |pieces| - 1;
    var stripped := seq(n, i requires 0 <= i < n => StripCr(pieces[i]));
    assert Lines(text) == stripped + [pieces[n]];
    assert stripped == ls[..n];
    assert ls[..n] + [ls[n]] == ls;
  }

  /** Every line followed by `\r`, as a file whose lines all end in CRLF holds them. */
  function CrTerminated(ls: seq<string>): (r: seq<string>)
    ensures |r| == |ls|
  {
    seq(|ls|, i requires 0 <= i < |ls| => ls[i] + ['\r'])
  }

  /** The final line ending is optional for CRLF too: lines that each end with
      `\r\n` are read back unchanged, an empty last one included. */
  lemma LinesCrlfTerminated(ls: seq<string>)
    requires |ls| >= 1
    requires forall i :: 0 <= i < |ls| ==> '\n' !in ls[i]
    ensures Lines(Join(CrTerminated(ls), '\n') + "\n") == ls
  {
    var pieces := CrTerminated(ls);
    CrTerminatedPieces(ls);
    SplitJoinTerminated(pieces, '\n');
    LinesOfStrippedEnded(Join(pieces, '\n') + "\n", pieces, ls);
  }

  /** Each added carriage return is the one `lines` strips, and adds no line feed. */
  lemma CrTerminatedPieces(ls: seq<string>)
    requires forall i :: 0 <= i < |ls| ==> '\n' !in ls[i]
    ensures forall i :: 0 <= i < |ls| ==> '\n' !in CrTerminated(ls)[i]
    ensures forall i :: 0 <= i < |ls| ==> StripCr(CrTerminated(ls)[i]) == ls[i]
  {
    var pieces := CrTerminated(ls);
    forall i | 0 <= i < |ls|
      ensures '\n' !in pieces[i] && StripCr(pieces[i]) == ls[i]
    {
      assert pieces[i] == ls[i] + ['\r'];
    }
  }

  /** Pieces free of line feeds, each followed by one, split into the pieces and
      a final empty one. */
  lemma SplitJoinTerminated(pieces: seq<string>, sep: char)
    requires |pieces| >= 1
    requires forall i :: 0 <= i < |pieces| ==> sep !in pieces[i]
    ensures Split(Join(pieces, sep) + [sep], sep) == pieces + [[]]
  {
    var all := pieces + [[]];
    forall p | p in all
      ensures sep !in p
    {
      var i :| 0 <= i < |all| && all[i] == p;
      if i < |pieces| {
        assert p == pieces[i];
      }
    }
    JoinSnoc(pieces, [], sep);
    assert Join(pieces, sep) + [sep] + [] == Join(pieces, sep) + [sep];
    SplitJoin(all, sep);
  }

  /** The lines of a text that ends with a line feed are its pieces before the
      final empty one, each without its trailing carriage return. */
  lemma LinesOfStrippedEnded(text: string, pieces: seq<string>, ls: seq<string>)
    requires Split(text, '\n') == pieces + [[]]
    requires |ls| == |pieces|
    requires forall i :: 0 <= i < |ls| ==> StripCr(pieces[i]) == ls[i]
    ensures Lines(text) == ls
  {
    var all := pieces + [[]];
    assert all[..|all| - 1] == pieces;
    assert all[|all| - 1] == [];
    var stripped := seq(|pieces|, i requires 0 <= i < |pieces| => StripCr(pieces[i]));
    assert Lines(text) == stripped;
    assert stripped == ls;
  }

  // ---------------------------------------------------------------------------
  // replace("\\\"", "\"") and its inverse

  /** `s.replace("\\\"", "\"")`: scanning left to right, every backslash that is
      followed by a double quote is dropped; nothing else changes. */
  function Unescape(s: string): (r: string)
    ensures |r| <= |s|
    ensures '\\' !in s ==> r == s
    decreases |s|
  {
    if s == [] then []
    else if |s| >= 2 && s[0] == '\\' && s[1] == '"' then ['"'] + Unescape(s[2..])
    else
      assert '\\' !in s ==> '\\' !in s[1..] by { assert forall c :: c in s[1..] ==> c in s; }
      [s[0]] + Unescape(s[1..])
  }

  /** Writes every double quote as `\"`, the form `Unescape` reads back. */
  function Escape(t: string): (s: string)
    ensures s == [] || s[0] != '"'
    ensures forall c :: c in s ==> c in t || c == '\\'
    decreases |t|
  {
    if t == [] then []
    else (if t[0] == '"' then ['\\', '"'] else [t[0]]) + Escape(t[1..])
  }

  lemma {:induction false} UnescapeEscape(t: string)
    ensures Unescape(Escape(t)) == t
    decreases |t|
  {
    if t != [] {
      UnescapeEscape(t[1..]);
      var e := Escape(t[1..]);
      if t[0] == '"' {
        assert Escape(t) == ['\\', '"'] + e;
        assert Escape(t)[2..] == e;
      } else {
        assert Escape(t) == [t[0]] + e;
        assert Escape(t)[1..] == e;
        if t[0] == '\\' {
          assert |Escape(t)| >= 2 ==> Escape(t)[1] == e[0];
        }
      }
      assert [t[0]] + t[1..] == t;
    }
  }
}
