/** Character classes and the handful of Python `str` operations the resume
    parser relies on: `lower()`, `strip()`, `strip(chars)`, `split()` (on
    whitespace runs), `split(sep)` and `startswith`.

    Case folding, whitespace, `\d` and `\w` are ASCII-only here. */
module Text {

  datatype Option<T> = None | Some(value: T)

  /** Python's `str.isspace()` (and the regex class `\s`) on ASCII: tab, line
      feed, vertical tab, form feed, carriage return, the four separators
      0x1C-0x1F, and space. */
  predicate IsSpace(c: char) {
    ('\t' <= c <= '\r') || ('\U{1C}' <= c <= ' ')
  }

  predicate IsDigit(c: char) { '0' <= c <= '9' }
  predicate IsUpper(c: char) { 'A' <= c <= 'Z' }
  predicate IsLower(c: char) { 'a' <= c <= 'z' }
  predicate IsLetter(c: char) { IsUpper(c) || IsLower(c) }

  /** The regex word class `\w`, restricted to ASCII. */
  predicate IsWordChar(c: char) { IsLetter(c) || IsDigit(c) || c == '_' }

  function LowerChar(c: char): (r: char)
    ensures IsUpper(c) ==> IsLower(r) && r as int == c as int + 32
    ensures !IsUpper(c) ==> r == c
    ensures !IsUpper(r)
  {
    if IsUpper(c) then (c as int + 32) as char else c
  }

  /** ASCII `str.lower()`. */
  function Lower(s: string): (r: string)
    ensures |r| == |s|
    ensures forall i :: 0 <= i < |s| ==> r[i] == LowerChar(s[i])
  {
    if s == [] then [] else [LowerChar(s[0])] + Lower(s[1..])
  }

  predicate NoUpper(s: string) {
    forall i :: 0 <= i < |s| ==> !IsUpper(s[i])
  }

  /** Case-insensitive character equality as `re.IGNORECASE` applies it to ASCII. */
  predicate SameLetter(a: char, b: char) { LowerChar(a) == LowerChar(b) }

  lemma LowerIsLowerCase(s: string)
    ensures NoUpper(Lower(s))
    ensures Lower(Lower(s)) == Lower(s)
  {
  }

  predicate StartsWith(s: string, prefix: string) {
    |prefix| <= |s| && s[..|prefix|] == prefix
  }

  /** `s` holds `lit` at position `i`, compared case-insensitively. */
  predicate LiteralAt(s: string, i: nat, lit: string) {
    i + |lit| <= |s| && forall k :: 0 <= k < |lit| ==> SameLetter(s[i + k], lit[k])
  }

  /** Number of leading characters of `s` that `drop` accepts. */
  function LeadCount(s: string, drop: char -> bool): (n: nat)
    ensures n <= |s|
    ensures forall k :: 0 <= k < n ==> drop(s[k])
    ensures n < |s| ==> !drop(s[n])
  {
    if s == [] || !drop(s[0]) then 0 else 1 + LeadCount(s[1..], drop)
  }

  /** Start of the trailing run of `s` that `drop` accepts. */
  function TailStart(s: string, drop: char -> bool): (n: nat)
    ensures n <= |s|
    ensures forall k :: n <= k < |s| ==> drop(s[k])
    ensures 0 < n ==> !drop(s[n - 1])
  {
    if s == [] || !drop(s[|s| - 1]) then |s| else TailStart(s[..|s| - 1], drop)
  }

  /** Python `s.strip(chars)`, with the character set given as a predicate. */
  function Trim(s: string, drop: char -> bool): (r: string)
    ensures |r| <= |s|
    ensures r != [] ==> !drop(r[0]) && !drop(r[|r| - 1])
  {
    var a := LeadCount(s, drop);
    s[a..][..TailStart(s[a..], drop)]
  }

  /** What `strip` keeps: the part of `s` between a leading and a trailing run
      of dropped characters; it is empty exactly when every character is dropped. */
  lemma TrimSpec(s: string, drop: char -> bool)
    ensures Trim(s, drop) == [] <==> forall k :: 0 <= k < |s| ==> drop(s[k])
    ensures exists a :: Framed(s, a, Trim(s, drop), drop)
  {
    var a := LeadCount(s, drop);
    var rest := s[a..];
    var b := TailStart(rest, drop);
    assert b > 0 ==> !drop(s[a]);
    assert s[a..a + b] == rest[..b];
    assert Framed(s, a, rest[..b], drop);
  }

  /** `r` sits at position `a` of `s`, and everything around it is dropped by `drop`. */
  ghost predicate Framed(s: string, a: nat, r: string, drop: char -> bool) {
    && a + |r| <= |s| && s[a..a + |r|] == r
    && (forall k :: 0 <= k < a ==> drop(s[k]))
    && (forall k :: a + |r| <= k < |s| ==> drop(s[k]))
  }

  /** Python `s.strip()`. */
  function Strip(s: string): (r: string)
    ensures |r| <= |s|
    ensures r != [] ==> !IsSpace(r[0]) && !IsSpace(r[|r| - 1])
  {
    Trim(s, IsSpace)
  }

  /** Stripping a string that neither starts nor ends with whitespace changes nothing. */
  lemma StripUntrimmed(s: string)
    requires s != [] && !IsSpace(s[0]) && !IsSpace(s[|s| - 1])
    ensures Strip(s) == s
  {
    assert LeadCount(s, IsSpace) == 0;
    assert TailStart(s, IsSpace) == |s|;
  }

  lemma StripAllSpace(s: string)
    requires forall k :: 0 <= k < |s| ==> IsSpace(s[k])
    ensures Strip(s) == []
  {
    TrimSpec(s, IsSpace);
  }

  /** End of the maximal run of characters accepted by `keep` starting at `p`. */
  function RunEnd(s: string, p: nat, keep: char -> bool): (e: nat)
    requires p <= |s|
    ensures p <= e <= |s|
    ensures forall k :: p <= k < e ==> keep(s[k])
    ensures e < |s| ==> !keep(s[e])
    decreases |s| - p
  {
    if p == |s| || !keep(s[p]) then p else RunEnd(s, p + 1, keep)
  }

  predicate NotSpace(c: char) { !IsSpace(c) }

  /** Python `s.split()`: the maximal runs of non-whitespace characters. */
  function Words(s: string): (r: seq<string>)
    ensures forall w :: w in r ==> w != [] && forall k :: 0 <= k < |w| ==> !IsSpace(w[k])
    decreases |s|
  {
    if s == [] then []
    else if IsSpace(s[0]) then Words(s[1..])
    else
      var e := RunEnd(s, 0, NotSpace);
      [s[..e]] + Words(s[e..])
  }

  /** Concatenation of a sequence of strings. */
  function Concat(ws: seq<string>): string {
    if ws == [] then [] else ws[0] + Concat(ws[1..])
  }

  /** `s` with every whitespace character removed. */
  function Unspaced(s: string): (r: string)
    ensures forall k :: 0 <= k < |r| ==> !IsSpace(r[k])
  {
    if s == [] then [] else (if IsSpace(s[0]) then [] else [s[0]]) + Unspaced(s[1..])
  }

  lemma UnspacedAppend(a: string, b: string)
    ensures Unspaced(a + b) == Unspaced(a) + Unspaced(b)
  {
    if a == [] {
      assert a + b == b;
    } else {
      assert (a + b)[1..] == a[1..] + b;
      UnspacedAppend(a[1..], b);
    }
  }

  /** `split()` loses exactly the whitespace: the words, concatenated, are the
      non-whitespace characters of the string in order. */
  lemma {:induction false} WordsKeepText(s: string)
    ensures Concat(Words(s)) == Unspaced(s)
    decreases |s|
  {
    if s == [] {
    } else if IsSpace(s[0]) {
      WordsKeepText(s[1..]);
    } else {
      var e := RunEnd(s, 0, NotSpace);
      WordsKeepText(s[e..]);
      assert s == s[..e] + s[e..];
      UnspacedAppend(s[..e], s[e..]);
      NoSpaceUnspaced(s[..e]);
    }
  }

  lemma {:induction false} NoSpaceUnspaced(w: string)
    requires forall k :: 0 <= k < |w| ==> !IsSpace(w[k])
    ensures Unspaced(w) == w
  {
    if w != [] {
      NoSpaceUnspaced(w[1..]);
    }
  }

  /** Leading whitespace does not change `split()`. */
  lemma {:induction false} WordsSkipSpace(a: string, b: string)
    requires forall k :: 0 <= k < |a| ==> IsSpace(a[k])
    ensures Words(a + b) == Words(b)
    decreases |a|
  {
    if a != [] {
      assert (a + b)[1..] == a[1..] + b;
      WordsSkipSpace(a[1..], b);
    } else {
      assert a + b == b;
    }
  }

  /** A word followed by whitespace (or nothing) is the first word of `split()`. */
  lemma WordsFirst(w: string, b: string)
    requires w != [] && forall k :: 0 <= k < |w| ==> !IsSpace(w[k])
    requires b == [] || IsSpace(b[0])
    ensures Words(w + b) == [w] + Words(b)
  {
    var s := w + b;
    assert s[0] == w[0];
    RunEndAt(s, 0, |w|, NotSpace);
    assert s[..|w|] == w && s[|w|..] == b;
  }

  /** Trailing whitespace does not change `split()`. */
  lemma {:induction false} WordsTrailingSpace(m: string, t: string)
    requires forall k :: 0 <= k < |t| ==> IsSpace(t[k])
    ensures Words(m + t) == Words(m)
    decreases |m|
  {
    if m == [] {
      assert m + t == t + [];
      WordsSkipSpace(t, []);
    } else if IsSpace(m[0]) {
      assert (m + t)[1..] == m[1..] + t;
      WordsTrailingSpace(m[1..], t);
    } else {
      var e := RunEnd(m, 0, NotSpace);
      RunEndAt(m + t, 0, e, NotSpace);
      assert (m + t)[..e] == m[..e];
      assert (m + t)[e..] == m[e..] + t;
      WordsTrailingSpace(m[e..], t);
    }
  }

  /** `strip()` does not change `split()`. */
  lemma WordsStrip(s: string)
    ensures Words(Strip(s)) == Words(s)
  {
    var a := LeadCount(s, IsSpace);
    var rest := s[a..];
    assert Strip(s) == rest[..TailStart(rest, IsSpace)];
    WordsDropLead(s, a);
    WordsDropTail(rest, TailStart(rest, IsSpace));
  }

  lemma WordsDropLead(s: string, a: nat)
    requires a <= |s| && forall k :: 0 <= k < a ==> IsSpace(s[k])
    ensures Words(s[a..]) == Words(s)
  {
    assert s == s[..a] + s[a..];
    WordsSkipSpace(s[..a], s[a..]);
  }

  lemma WordsDropTail(s: string, b: nat)
    requires b <= |s| && forall k :: b <= k < |s| ==> IsSpace(s[k])
    ensures Words(s[..b]) == Words(s)
  {
    assert s == s[..b] + s[b..];
    WordsTrailingSpace(s[..b], s[b..]);
  }

  lemma RunEndAt(s: string, p: nat, e: nat, keep: char -> bool)
    requires p <= e <= |s|
    requires forall k :: p <= k < e ==> keep(s[k])
    requires e < |s| ==> !keep(s[e])
    ensures RunEnd(s, p, keep) == e
    decreases e - p
  {
    if p < e {
      RunEndAt(s, p + 1, e, keep);
    }
  }

  /** The delimiters of `s`, in order. */
  function Separators(s: string, delims: set<char>): (r: seq<char>)
    ensures forall k :: 0 <= k < |r| ==> r[k] in delims
  {
    if s == [] then [] else (if s[0] in delims then [s[0]] else []) + Separators(s[1..], delims)
  }

  /** `re.split` on a one-character class (or `str.split(sep)` when the set is a
      single character): the pieces between consecutive delimiters, empty pieces kept. */
  function Split(s: string, delims: set<char>): (r: seq<string>)
    ensures |r| == |Separators(s, delims)| + 1
  {
    if s == [] then [[]]
    else if s[0] in delims then [[]] + Split(s[1..], delims)
    else
      var rest := Split(s[1..], delims);
      [[s[0]] + rest[0]] + rest[1..]
  }

  /** No character of `s` is in `delims`. */
  predicate Avoids(s: string, delims: set<char>) {
    forall k :: 0 <= k < |s| ==> s[k] !in delims
  }

  /** Stripping keeps a string free of the delimiters. */
  lemma StripAvoids(s: string, delims: set<char>)
    requires Avoids(s, delims)
    ensures Avoids(Strip(s), delims)
  {
    var a := LeadCount(s, IsSpace);
    var r := Strip(s);
    forall k | 0 <= k < |r| ensures r[k] !in delims {
      assert r[k] == s[a + k];
    }
  }

  /** `re.split('[...]+', s)`: the pieces between maximal runs of delimiters.
      Only the first and the last piece can be empty. */
  function SplitRuns(s: string, delims: set<char>): (r: seq<string>)
    ensures r != []
    ensures s != [] && s[0] !in delims ==> r[0] != [] && r[0][0] == s[0]
    ensures forall i :: 0 < i < |r| - 1 ==> r[i] != []
    decreases |s|
  {
    if s == [] then [[]]
    else if s[0] in delims then
      var e := LeadCount(s, c => c in delims);
      var rest := SplitRuns(s[e..], delims);
      assert e < |s| ==> s[e..][0] == s[e];
      [[]] + rest
    else
      var rest := SplitRuns(s[1..], delims);
      [[s[0]] + rest[0]] + rest[1..]
  }

  /** The pieces of a split on delimiter runs hold no delimiter. */
  lemma {:induction false} SplitRunsPieces(s: string, delims: set<char>)
    ensures forall i :: 0 <= i < |SplitRuns(s, delims)| ==> Avoids(SplitRuns(s, delims)[i], delims)
    decreases |s|
  {
    if s != [] {
      if s[0] in delims {
        var e := LeadCount(s, c => c in delims);
        SplitRunsPieces(s[e..], delims);
        var r := SplitRuns(s, delims);
        assert r[1..] == SplitRuns(s[e..], delims);
        forall i | 0 < i < |r| ensures Avoids(r[i], delims) {
          assert r[i] == r[1..][i - 1];
        }
      } else {
        var rest := SplitRuns(s[1..], delims);
        SplitRunsPieces(s[1..], delims);
        var r := SplitRuns(s, delims);
        assert r == [[s[0]] + rest[0]] + rest[1..];
        assert Avoids([s[0]] + rest[0], delims) by {
          forall k | 0 <= k < |[s[0]] + rest[0]| ensures ([s[0]] + rest[0])[k] !in delims {
            if k > 0 { assert ([s[0]] + rest[0])[k] == rest[0][k - 1]; }
          }
        }
        forall i | 0 < i < |r| ensures Avoids(r[i], delims) {
          assert r[i] == rest[i];
        }
      }
    }
  }

  /** A string without delimiters is a single piece. */
  lemma {:induction false} SplitRunsWhole(s: string, delims: set<char>)
    requires Avoids(s, delims)
    ensures SplitRuns(s, delims) == [s]
    decreases |s|
  {
    if s != [] {
      SplitRunsWhole(s[1..], delims);
      assert [s[0]] + s[1..] == s;
    }
  }

  /** A leading run of delimiters leaves an empty first piece. */
  lemma SplitRunsLead(run: string, b: string, delims: set<char>)
    requires run != [] && (forall k :: 0 <= k < |run| ==> run[k] in delims)
    requires b != [] && Avoids(b, delims)
    ensures SplitRuns(run + b, delims) == [[], b]
  {
    var s := run + b;
    assert s[|run|] == b[0];
    assert forall k :: 0 <= k < |run| ==> s[k] == run[k];
    assert s[|run|..] == b;
    SplitRunsWhole(b, delims);
  }

  /** One run of delimiters between two delimiter-free pieces splits there. */
  lemma {:induction false} SplitRunsPair(a: string, run: string, b: string, delims: set<char>)
    requires a != [] && Avoids(a, delims)
    requires run != [] && (forall k :: 0 <= k < |run| ==> run[k] in delims)
    requires b != [] && Avoids(b, delims)
    ensures SplitRuns(a + run + b, delims) == [a, b]
    decreases |a|
  {
    var s := a + run + b;
    assert s[0] == a[0];
    assert s[1..] == a[1..] + run + b;
    if |a| == 1 {
      assert a[1..] + run + b == run + b;
      SplitRunsLead(run, b, delims);
    } else {
      SplitRunsPair(a[1..], run, b, delims);
    }
    assert [a[0]] + a[1..] == a;
  }

  /** Puts the separators back between the pieces. */
  function Rejoin(pieces: seq<string>, seps: seq<char>): string
    requires |pieces| == |seps| + 1
  {
    if seps == [] then pieces[0] else pieces[0] + [seps[0]] + Rejoin(pieces[1..], seps[1..])
  }

  lemma RejoinCons(c: char, pieces: seq<string>, seps: seq<char>)
    requires |pieces| == |seps| + 1
    ensures Rejoin([[c] + pieces[0]] + pieces[1..], seps) == [c] + Rejoin(pieces, seps)
  {
    var ps := [[c] + pieces[0]] + pieces[1..];
    assert ps[1..] == pieces[1..];
  }

  /** Splitting loses nothing: the pieces, rejoined with the delimiters found,
      give back the original string. */
  lemma {:induction false} SplitRejoin(s: string, delims: set<char>)
    ensures Rejoin(Split(s, delims), Separators(s, delims)) == s
    decreases |s|
  {
    if s == [] {
    } else if s[0] in delims {
      SplitRejoin(s[1..], delims);
      var r := Split(s, delims);
      assert r[1..] == Split(s[1..], delims);
      assert s == [s[0]] + s[1..];
    } else {
      var rest := Split(s[1..], delims);
      SplitRejoin(s[1..], delims);
      RejoinCons(s[0], rest, Separators(s[1..], delims));
      assert Split(s, delims) == [[s[0]] + rest[0]] + rest[1..];
      assert Separators(s, delims) == Separators(s[1..], delims);
      assert s == [s[0]] + s[1..];
    }
  }

  /** The maximal runs of delimiters that `SplitRuns` cuts at, in order. */
  function DelimRuns(s: string, delims: set<char>): (r: seq<string>)
    ensures forall i :: 0 <= i < |r| ==> r[i] != [] && forall k :: 0 <= k < |r[i]| ==> r[i][k] in delims
    decreases |s|
  {
    if s == [] then []
    else if s[0] in delims then
      var e := LeadCount(s, c => c in delims);
      [s[..e]] + DelimRuns(s[e..], delims)
    else DelimRuns(s[1..], delims)
  }

  /** Puts the delimiter runs back between the pieces. */
  function RejoinRuns(pieces: seq<string>, runs: seq<string>): string
    requires |pieces| == |runs| + 1
  {
    if runs == [] then pieces[0] else pieces[0] + runs[0] + RejoinRuns(pieces[1..], runs[1..])
  }

  lemma RejoinRunsCons(c: char, pieces: seq<string>, runs: seq<string>)
    requires |pieces| == |runs| + 1
    ensures RejoinRuns([[c] + pieces[0]] + pieces[1..], runs) == [c] + RejoinRuns(pieces, runs)
  {
    var ps := [[c] + pieces[0]] + pieces[1..];
    assert ps[1..] == pieces[1..];
  }

  /** Splitting on delimiter runs loses nothing: the pieces, rejoined with the
      runs found, give back the original string. */
  lemma {:induction false} SplitRunsRejoin(s: string, delims: set<char>)
    ensures |SplitRuns(s, delims)| == |DelimRuns(s, delims)| + 1
    ensures RejoinRuns(SplitRuns(s, delims), DelimRuns(s, delims)) == s
    decreases |s|
  {
    if s == [] {
    } else if s[0] in delims {
      var e := LeadCount(s, c => c in delims);
      SplitRunsRejoin(s[e..], delims);
      var r := SplitRuns(s, delims);
      assert r == [[]] + SplitRuns(s[e..], delims);
      assert r[1..] == SplitRuns(s[e..], delims);
      assert DelimRuns(s, delims) == [s[..e]] + DelimRuns(s[e..], delims);
      assert s == [] + s[..e] + s[e..];
    } else {
      var rest := SplitRuns(s[1..], delims);
      SplitRunsRejoin(s[1..], delims);
      RejoinRunsCons(s[0], rest, DelimRuns(s[1..], delims));
      assert SplitRuns(s, delims) == [[s[0]] + rest[0]] + rest[1..];
      assert DelimRuns(s, delims) == DelimRuns(s[1..], delims);
      assert s == [s[0]] + s[1..];
    }
  }

  predicate NotLetter(c: char) { !IsLetter(c) }

  /** Every character of `s` satisfies `p`. */
  predicate All(s: string, p: char -> bool) {
    forall k :: 0 <= k < |s| ==> p(s[k])
  }

  /** What holds of every character of `s` holds of every character of its stripped form. */
  lemma TrimKeepsAll(s: string, drop: char -> bool, p: char -> bool)
    requires All(s, p)
    ensures All(Trim(s, drop), p)
  {
    var a := LeadCount(s, drop);
    var r := Trim(s, drop);
    forall k | 0 <= k < |r| ensures p(r[k]) {
      assert r[k] == s[a + k];
    }
  }

  /** The pieces of a split are made of the non-delimiter characters of `s`:
      whatever those satisfy, every character of every piece satisfies. */
  lemma {:induction false} SplitPieces(s: string, delims: set<char>, p: char -> bool)
    requires forall k :: 0 <= k < |s| && s[k] !in delims ==> p(s[k])
    ensures forall i :: 0 <= i < |Split(s, delims)| ==> All(Split(s, delims)[i], p)
    decreases |s|
  {
    if s != [] {
      var rest := Split(s[1..], delims);
      assert forall k :: 0 <= k < |s[1..]| ==> s[1..][k] == s[k + 1];
      SplitPieces(s[1..], delims, p);
      if s[0] !in delims {
        var r := Split(s, delims);
        assert r == [[s[0]] + rest[0]] + rest[1..];
        assert All([s[0]] + rest[0], p) by {
          forall k | 0 <= k < |[s[0]] + rest[0]| ensures p(([s[0]] + rest[0])[k]) {
            if k > 0 { assert ([s[0]] + rest[0])[k] == rest[0][k - 1]; }
          }
        }
        forall i | 0 <= i < |r| ensures All(r[i], p) {
          if i > 0 { assert r[i] == rest[i]; }
        }
      }
    }
  }

  /** A string with no delimiter in it splits into itself alone. */
  lemma {:induction false} SplitWhole(s: string, delims: set<char>)
    requires forall k :: 0 <= k < |s| ==> s[k] !in delims
    ensures Split(s, delims) == [s]
    decreases |s|
  {
    if s != [] {
      assert forall k :: 0 <= k < |s[1..]| ==> s[1..][k] == s[k + 1];
      SplitWhole(s[1..], delims);
      assert s == [s[0]] + s[1..];
    }
  }

  /** `strip(chars)` leaves alone a string that neither starts nor ends with one of them. */
  lemma TrimUntouched(s: string, drop: char -> bool)
    requires s != [] && !drop(s[0]) && !drop(s[|s| - 1])
    ensures Trim(s, drop) == s
  {
    assert LeadCount(s, drop) == 0;
    assert TailStart(s, drop) == |s|;
  }

  /** A string ending in a non-space character does not strip to nothing. */
  lemma StripKeepsLast(s: string)
    requires s != [] && !IsSpace(s[|s| - 1])
    ensures Strip(s) != []
  {
    TrimSpec(s, IsSpace);
  }

  /** The first character of a literal found at `i`. */
  lemma LiteralHead(s: string, i: nat, lit: string)
    requires LiteralAt(s, i, lit) && lit != []
    ensures i < |s| && LowerChar(s[i]) == LowerChar(lit[0])
  {
    var k := 0;
    assert SameLetter(s[i + k], lit[k]);
  }

  /** A literal whose first character differs, case-insensitively, is not found at `i`. */
  lemma LiteralMiss(s: string, i: nat, lit: string)
    requires lit != [] && i < |s| && LowerChar(s[i]) != LowerChar(lit[0])
    ensures !LiteralAt(s, i, lit)
  {
    var k := 0;
    assert !SameLetter(s[i + k], lit[k]);
  }

  /** A literal present verbatim at `i` is found there. */
  lemma LiteralPresent(s: string, i: nat, lit: string)
    requires i + |lit| <= |s| && s[i..i + |lit|] == lit
    ensures LiteralAt(s, i, lit)
  {
    forall k | 0 <= k < |lit| ensures SameLetter(s[i + k], lit[k]) {
      assert s[i + k] == s[i..i + |lit|][k];
    }
  }
}
