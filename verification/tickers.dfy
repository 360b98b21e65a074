/**
 * The ticker-list normalisation of the dashboard (app.py line 84): newlines
 * become commas, the text is split on commas, each piece is stripped and
 * upper-cased, and blank pieces are dropped.
 *
 * Each Python string operation is modelled on ASCII text: `str.split` with an
 * explicit separator, `str.strip` with no argument and `str.upper`.
 */
module Tickers {

  /** Python's `str.isspace` restricted to ASCII: tab, line feed, vertical tab,
      form feed, carriage return, the four information separators and space. */
  predicate IsSpace(c: char) {
    c == ' ' || 9 <= c as int <= 13 || 28 <= c as int <= 31
  }

  predicate IsLower(c: char) {
    'a' <= c <= 'z'
  }

  predicate AllSpace(s: string) {
    forall i :: 0 <= i < |s| ==> IsSpace(s[i])
  }

  /** Text made only of whitespace, commas and newlines: nothing to parse. */
  predicate AllSeparators(s: string) {
    forall i :: 0 <= i < |s| ==> s[i] == ',' || IsSpace(s[i])
  }

  /** A normalised ticker: non-empty, no surrounding whitespace, no separator
      characters, no lower-case ASCII letter. */
  predicate IsTicker(t: string) {
    && t != []
    && !IsSpace(t[0])
    && !IsSpace(t[|t| - 1])
    && forall i :: 0 <= i < |t| ==> t[i] != ',' && t[i] != '\n' && !IsLower(t[i])
  }

  // ---------------------------------------------------------------- upper()

  /** `str.upper` on one ASCII character. */
  function UpperChar(c: char): (u: char)
    ensures !IsLower(u)
    ensures !IsLower(c) ==> u == c
    ensures IsLower(c) ==> 'A' <= u <= 'Z' && u as int + 32 == c as int
  {
    if IsLower(c) then (c as int - 32) as char else c
  }

  function Upper(s: string): (r: string)
    ensures |r| == |s|
    ensures forall i :: 0 <= i < |s| ==> r[i] == UpperChar(s[i])
  {
    seq(|s|, i requires 0 <= i < |s| => UpperChar(s[i]))
  }

  // ------------------------------------------------------ replace("\n", ",")

  function ReplaceNewlines(s: string): (r: string)
    ensures |r| == |s|
    ensures forall i :: 0 <= i < |s| ==> r[i] == if s[i] == '\n' then ',' else s[i]
  {
    seq(|s|, i requires 0 <= i < |s| => if s[i] == '\n' then ',' else s[i])
  }

  // ---------------------------------------------------------------- split()

  /** `s.split(sep)`: always at least one piece ("".split(",") == [""]). */
  function Split(s: string, sep: char): (pieces: seq<string>)
    ensures |pieces| >= 1
    ensures s == [] ==> pieces == [[]]
    decreases |s|
  {
    if s == [] then [[]]
    else
      var rest := Split(s[1..], sep);
      if s[0] == sep then [[]] + rest
      else [[s[0]] + rest[0]] + rest[1..]
  }

  /** No piece holds the separator, nor a character that is not in `s`. */
  lemma {:induction false} SplitPieces(s: string, sep: char, c: char)
    requires c == sep || c !in s
    ensures forall p :: p in Split(s, sep) ==> c !in p
    decreases |s|
  {
    if s != [] {
      assert c == sep || c !in s[1..];
      SplitPieces(s[1..], sep, c);
      var rest := Split(s[1..], sep);
      assert rest[0] in rest;
      if s[0] != sep {
        assert forall p :: p in Split(s, sep)[1..] ==> p in rest;
      }
    }
  }

  /** `sep.join(pieces)`. */
  function Join(pieces: seq<string>, sep: char): string
  {
    if |pieces| == 0 then []
    else if |pieces| == 1 then pieces[0]
    else pieces[0] + [sep] + Join(pieces[1..], sep)
  }

  /** Prefixing a character to the first piece prefixes it to the joined text. */
  lemma JoinExtendFirst(c: char, pieces: seq<string>, sep: char)
    requires |pieces| >= 1
    ensures Join([[c] + pieces[0]] + pieces[1..], sep) == [c] + Join(pieces, sep)
  {
    var ext := [[c] + pieces[0]] + pieces[1..];
    assert ext[0] == [c] + pieces[0] && ext[1..] == pieces[1..];
  }

  /** Splitting loses nothing: joining the pieces back gives the text. */
  lemma {:induction false} JoinSplit(s: string, sep: char)
    ensures Join(Split(s, sep), sep) == s
    decreases |s|
  {
    if s != [] {
      var rest := Split(s[1..], sep);
      JoinSplit(s[1..], sep);
      assert s == [s[0]] + s[1..];
      if s[0] == sep {
        var pieces := [[]] + rest;
        assert pieces[0] == [] && pieces[1..] == rest;
      } else {
        JoinExtendFirst(s[0], rest, sep);
      }
    }
  }

  /** A separator splits the text into the pieces before it and after it. */
  lemma {:induction false} SplitAppend(a: string, b: string, sep: char)
    ensures Split(a + [sep] + b, sep) == Split(a, sep) + Split(b, sep)
    decreases |a|
  {
    var s := a + [sep] + b;
    if a == [] {
      assert s[1..] == b;
    } else {
      assert s[0] == a[0] && s[1..] == a[1..] + [sep] + b;
      SplitAppend(a[1..], b, sep);
    }
  }

  /** Text without the separator is a single piece. */
  lemma {:induction false} SplitWithoutSeparator(s: string, sep: char)
    requires sep !in s
    ensures Split(s, sep) == [s]
    decreases |s|
  {
    if s != [] {
      assert sep !in s[1..];
      SplitWithoutSeparator(s[1..], sep);
      assert s == [s[0]] + s[1..];
    }
  }

  /** Joining pieces that do not hold the separator and splitting again gives
      the same pieces back. */
  lemma {:induction false} SplitJoin(pieces: seq<string>, sep: char)
    requires |pieces| >= 1
    requires forall p :: p in pieces ==> sep !in p
    ensures Split(Join(pieces, sep), sep) == pieces
  {
    if |pieces| == 1 {
      SplitWithoutSeparator(pieces[0], sep);
    } else {
      var p, rest := pieces[0], pieces[1..];
      assert Join(pieces, sep) == p + [sep] + Join(rest, sep);
      SplitAppend(p, Join(rest, sep), sep);
      SplitWithoutSeparator(p, sep);
      SplitJoin(rest, sep);
      assert pieces == [p] + rest;
    }
  }

  // ---------------------------------------------------------------- strip()

  /** How many whitespace characters `s` starts with. */
  function LeadingSpaces(s: string): (k: nat)
    ensures k <= |s|
  {
    if s != [] && IsSpace(s[0]) then 1 + LeadingSpaces(s[1..]) else 0
  }

  /** How many whitespace characters `s` ends with. */
  function TrailingSpaces(s: string): (k: nat)
    ensures k <= |s|
  {
    if s != [] && IsSpace(s[|s| - 1]) then 1 + TrailingSpaces(s[..|s| - 1]) else 0
  }

  lemma {:induction false} LeadingSpacesBound(s: string)
    ensures forall i :: 0 <= i < LeadingSpaces(s) ==> IsSpace(s[i])
    ensures LeadingSpaces(s) < |s| ==> !IsSpace(s[LeadingSpaces(s)])
  {
    if s != [] && IsSpace(s[0]) {
      LeadingSpacesBound(s[1..]);
      assert forall i :: 1 <= i < |s| ==> s[i] == s[1..][i - 1];
    }
  }

  lemma {:induction false} TrailingSpacesBound(s: string)
    ensures forall i :: |s| - TrailingSpaces(s) <= i < |s| ==> IsSpace(s[i])
    ensures TrailingSpaces(s) < |s| ==> !IsSpace(s[|s| - 1 - TrailingSpaces(s)])
  {
    if s != [] && IsSpace(s[|s| - 1]) {
      TrailingSpacesBound(s[..|s| - 1]);
      assert forall i :: 0 <= i < |s| - 1 ==> s[i] == s[..|s| - 1][i];
    }
  }

  /** `s.strip()`: the slice of `s` between its leading and its trailing
      whitespace (see StripSlice). It is empty exactly when `s` is blank,
      otherwise it starts and ends with non-whitespace characters; text that
      is already stripped is unchanged. */
  function Strip(s: string): (r: string)
    ensures r == [] <==> AllSpace(s)
    ensures r != [] ==> !IsSpace(r[0]) && !IsSpace(r[|r| - 1])
    ensures s == [] || (!IsSpace(s[0]) && !IsSpace(s[|s| - 1])) ==> r == s
  {
    LeadingSpacesBound(s);
    TrailingSpacesBound(s);
    var i, j := LeadingSpaces(s), |s| - TrailingSpaces(s);
    if i >= j then [] else s[i..j]
  }

  /** What `s.strip()` keeps is the slice of `s` that starts after its
      leading whitespace and, for text that is not blank, ends before its
      trailing whitespace. */
  lemma StripSlice(s: string)
    ensures LeadingSpaces(s) + |Strip(s)| <= |s|
    ensures Strip(s) == s[LeadingSpaces(s)..LeadingSpaces(s) + |Strip(s)|]
    ensures !AllSpace(s) ==> Strip(s) == s[LeadingSpaces(s)..|s| - TrailingSpaces(s)]
  {
    var i, j := LeadingSpaces(s), |s| - TrailingSpaces(s);
    var r := Strip(s);
    if i >= j {
      assert r == [];
      assert s[i..i + |r|] == [];
    } else {
      assert r == s[i..j];
      assert i + |r| == j;
    }
  }

  /** Everything `s.strip()` cuts off, on either side, is whitespace. */
  lemma StripCutsOnlySpace(s: string)
    ensures LeadingSpaces(s) + |Strip(s)| <= |s|
    ensures AllSpace(s[..LeadingSpaces(s)])
    ensures AllSpace(s[LeadingSpaces(s) + |Strip(s)|..])
  {
    StripSlice(s);
    LeadingSpacesBound(s);
    TrailingSpacesBound(s);
    var i, j, r := LeadingSpaces(s), |s| - TrailingSpaces(s), Strip(s);
    assert i + |r| >= j;
    var front, back := s[..i], s[i + |r|..];
    forall k | 0 <= k < |front| ensures IsSpace(front[k]) {
      assert front[k] == s[k];
    }
    forall k | 0 <= k < |back| ensures IsSpace(back[k]) {
      assert back[k] == s[i + |r| + k];
    }
  }

  /** A non-blank piece without separators normalises to a ticker. */
  lemma Normalised(p: string)
    requires ',' !in p && '\n' !in p && !AllSpace(p)
    ensures IsTicker(Upper(Strip(p)))
  {
    var q := Strip(p);
    var k := LeadingSpaces(p);
    StripSlice(p);
    forall i | 0 <= i < |q|
      ensures q[i] != ',' && q[i] != '\n'
    {
      assert q[i] == p[k + i];
    }
  }

  /** The results of `f` on the elements of `xs`, concatenated in order. */
  function FlatMap<T, U>(f: T -> seq<U>, xs: seq<T>): seq<U>
  {
    if |xs| == 0 then [] else f(xs[0]) + FlatMap(f, xs[1..])
  }

  lemma {:induction false} FlatMapAppend<T, U>(f: T -> seq<U>, a: seq<T>, b: seq<T>)
    ensures FlatMap(f, a + b) == FlatMap(f, a) + FlatMap(f, b)
  {
    if |a| == 0 {
      assert a + b == b;
    } else {
      assert (a + b)[0] == a[0] && (a + b)[1..] == a[1..] + b;
      FlatMapAppend(f, a[1..], b);
    }
  }

  lemma FlatMapOne<T, U>(f: T -> seq<U>, x: T)
    ensures FlatMap(f, [x]) == f(x)
  {
    assert [x][1..] == [];
  }

  /** One piece of the comprehension: kept, stripped and upper-cased when it
      is not blank, dropped otherwise. */
  function Normalise(piece: string): (r: seq<string>)
    ensures |r| <= 1
  {
    var p := Strip(piece);
    if p == [] then [] else [Upper(p)]
  }

  /** The filter-and-map of the comprehension over the pieces, in order. */
  function Keep(pieces: seq<string>): seq<string>
  {
    FlatMap(Normalise, pieces)
  }

  lemma {:induction false} KeepTickers(pieces: seq<string>)
    requires forall p :: p in pieces ==> ',' !in p && '\n' !in p
    ensures forall t :: t in Keep(pieces) ==> IsTicker(t)
  {
    if pieces != [] {
      KeepTickers(pieces[1..]);
      if !AllSpace(pieces[0]) {
        Normalised(pieces[0]);
      }
    }
  }

  lemma KeepAppend(a: seq<string>, b: seq<string>)
    ensures Keep(a + b) == Keep(a) + Keep(b)
  {
    FlatMapAppend(Normalise, a, b);
  }

  lemma {:induction false} KeepEmpty(pieces: seq<string>)
    ensures Keep(pieces) == [] <==> forall p :: p in pieces ==> AllSpace(p)
  {
    if pieces != [] {
      var p, rest := pieces[0], pieces[1..];
      KeepEmpty(rest);
      assert Keep(pieces) == Normalise(p) + Keep(rest);
      assert Normalise(p) == [] <==> AllSpace(p);
      assert forall q :: q in pieces <==> q == p || q in rest;
    }
  }

  lemma ReplaceNewlinesAppend(a: string, b: string, sep: char)
    requires sep == ',' || sep == '\n'
    ensures ReplaceNewlines(a + [sep] + b) == ReplaceNewlines(a) + [','] + ReplaceNewlines(b)
  {
    var l, r := ReplaceNewlines(a + [sep] + b), ReplaceNewlines(a) + [','] + ReplaceNewlines(b);
    assert |l| == |r|;
    forall i | 0 <= i < |l| ensures l[i] == r[i] {
      if i < |a| {
        assert (a + [sep] + b)[i] == a[i];
      } else if i > |a| {
        assert (a + [sep] + b)[i] == b[i - |a| - 1];
      }
    }
  }

  /** The tickers of app.py line 84. */
  function ParseTickers(text: string): (tickers: seq<string>)
    ensures forall t :: t in tickers ==> IsTicker(t)
  {
    var pieces := Split(ReplaceNewlines(text), ',');
    SplitPieces(ReplaceNewlines(text), ',', ',');
    SplitPieces(ReplaceNewlines(text), ',', '\n');
    KeepTickers(pieces);
    Keep(pieces)
  }

  /** A comma or a newline between two texts splits their tickers apart,
      keeping the order: the tickers of the left text come first. */
  lemma ParseTickersAppend(a: string, b: string, sep: char)
    requires sep == ',' || sep == '\n'
    ensures ParseTickers(a + [sep] + b) == ParseTickers(a) + ParseTickers(b)
  {
    ReplaceNewlinesAppend(a, b, sep);
    SplitAppend(ReplaceNewlines(a), ReplaceNewlines(b), ',');
    KeepAppend(Split(ReplaceNewlines(a), ','), Split(ReplaceNewlines(b), ','));
  }

  /** A single piece gives at most one ticker: none when it is blank, otherwise
      the piece stripped and upper-cased. */
  lemma ParseTickersPiece(p: string)
    requires ',' !in p && '\n' !in p
    ensures ParseTickers(p) == if AllSpace(p) then [] else [Upper(Strip(p))]
  {
    assert ReplaceNewlines(p) == p;
    SplitWithoutSeparator(p, ',');
    FlatMapOne(Normalise, p);
  }

  /** A normalised ticker parses to itself. */
  lemma ParseTickersOne(t: string)
    requires IsTicker(t)
    ensures ParseTickers(t) == [t]
  {
    ParseTickersPiece(t);
    assert Upper(t) == t;
  }

  /** Parsing the comma-join of normalised tickers gives them back. */
  lemma {:induction false} ParseTickersJoin(tickers: seq<string>)
    requires forall t :: t in tickers ==> IsTicker(t)
    ensures ParseTickers(Join(tickers, ',')) == tickers
  {
    if |tickers| == 0 {
      assert Split(ReplaceNewlines([]), ',') == [[]];
      FlatMapOne(Normalise, []);
    } else if |tickers| == 1 {
      ParseTickersOne(tickers[0]);
    } else {
      var t, rest := tickers[0], tickers[1..];
      assert Join(tickers, ',') == t + [','] + Join(rest, ',');
      ParseTickersAppend(t, Join(rest, ','), ',');
      ParseTickersOne(t);
      ParseTickersJoin(rest);
      assert tickers == [t] + rest;
    }
  }

  /** Normalisation is idempotent: re-parsing the comma-joined output gives the
      same list. */
  lemma ParseTickersIdempotent(text: string)
    ensures ParseTickers(Join(ParseTickers(text), ',')) == ParseTickers(text)
  {
    ParseTickersJoin(ParseTickers(text));
  }

  lemma {:induction false} SplitBlank(s: string, sep: char)
    ensures (forall p :: p in Split(s, sep) ==> AllSpace(p)) <==>
            (forall i :: 0 <= i < |s| ==> s[i] == sep || IsSpace(s[i]))
    decreases |s|
  {
    if s != [] {
      SplitBlank(s[1..], sep);
      var rest := Split(s[1..], sep);
      if s[0] != sep {
        var head := [s[0]] + rest[0];
        assert Split(s, sep) == [head] + rest[1..];
        assert rest == [rest[0]] + rest[1..];
        assert AllSpace(head) <==> IsSpace(s[0]) && AllSpace(rest[0]) by {
          assert |head| == 1 + |rest[0]| && head[0] == s[0];
          assert forall i :: 0 <= i < |rest[0]| ==> head[i + 1] == rest[0][i];
        }
      } else {
        assert Split(s, sep) == [[]] + rest;
      }
      assert forall i :: 1 <= i < |s| ==> s[i] == s[1..][i - 1];
    }
  }

  /** No ticker comes out exactly when the text holds only whitespace, commas
      and newlines (the empty text included): the dashboard's warning case. */
  lemma ParseTickersEmpty(text: string)
    ensures ParseTickers(text) == [] <==> AllSeparators(text)
  {
    var r := ReplaceNewlines(text);
    KeepEmpty(Split(r, ','));
    SplitBlank(r, ',');
    assert AllSeparators(r) <==> AllSeparators(text);
  }
}
