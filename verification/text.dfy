/**
  String primitives of JavaScript that the link parser relies on, stated over
  `string` (a `seq<char>`): `trim`, `split('\n')`, `split(/\s+/)`, `includes`
  and `startsWith`.
 */
module Text {

  /** The characters removed by `String.prototype.trim` and matched by `\s` in a
      regular expression: ECMAScript's WhiteSpace and LineTerminator sets. */
  predicate IsSpace(c: char) {
    || c == ' ' || c == '\t' || c == '\n' || c == '\r'
    || c == '\U{0B}' || c == '\U{0C}' || c == '\U{A0}' || c == '\U{1680}'
    || ('\U{2000}' <= c <= '\U{200A}')
    || c == '\U{2028}' || c == '\U{2029}' || c == '\U{202F}' || c == '\U{205F}'
    || c == '\U{3000}' || c == '\U{FEFF}'
  }

  predicate NoSpace(s: string) {
    forall i :: 0 <= i < |s| ==> !IsSpace(s[i])
  }

  /** `s.startsWith(prefix)`. */
  predicate StartsWith(s: string, prefix: string) {
    |prefix| <= |s| && s[..|prefix|] == prefix
  }

  /** `p` occurs in `s` at position `i`. */
  predicate OccursAt(s: string, p: string, i: int) {
    0 <= i <= |s| && StartsWith(s[i..], p)
  }

  /** `s.includes(p)`, as a left-to-right search. */
  function Contains(s: string, p: string): (r: bool)
    ensures r <==> exists i :: OccursAt(s, p, i)
    decreases |s|
  {
    if StartsWith(s, p) then
      assert OccursAt(s, p, 0) by { assert s[0..] == s; }
      true
    else if |s| == 0 then
      assert !OccursAt(s, p, 0) by { assert s[0..] == s; }
      false
    else
      var r := Contains(s[1..], p);
      assert forall i :: 0 <= i <= |s| - 1 ==> (OccursAt(s[1..], p, i) <==> OccursAt(s, p, i + 1)) by {
        forall i | 0 <= i <= |s| - 1 ensures s[1..][i..] == s[i + 1..] { }
      }
      assert !OccursAt(s, p, 0) by { assert s[0..] == s; }
      assert r ==> exists i :: OccursAt(s, p, i) by {
        if r {
          var i :| OccursAt(s[1..], p, i);
          assert OccursAt(s, p, i + 1);
        }
      }
      assert (exists i :: OccursAt(s, p, i)) ==> r by {
        if exists i :: OccursAt(s, p, i) {
          var i :| OccursAt(s, p, i);
          assert i != 0;
          assert OccursAt(s[1..], p, i - 1);
        }
      }
      r
  }

  /** `s` without its leading whitespace. */
  function TrimStart(s: string): string
    decreases |s|
  {
    if |s| > 0 && IsSpace(s[0]) then TrimStart(s[1..]) else s
  }

  /** `s` without its trailing whitespace. */
  function TrimEnd(s: string): string
    decreases |s|
  {
    if |s| > 0 && IsSpace(s[|s| - 1]) then TrimEnd(s[..|s| - 1]) else s
  }

  /** `TrimStart` drops a run of whitespace from the front and stops at the
      first other character. */
  lemma {:induction false} TrimStartCuts(s: string)
    ensures |TrimStart(s)| <= |s|
    ensures TrimStart(s) == s[|s| - |TrimStart(s)|..]
    ensures forall i :: 0 <= i < |s| - |TrimStart(s)| ==> IsSpace(s[i])
    ensures TrimStart(s) == [] || !IsSpace(TrimStart(s)[0])
    decreases |s|
  {
    if |s| > 0 && IsSpace(s[0]) {
      TrimStartCuts(s[1..]);
      assert s[1..][|s| - 1 - |TrimStart(s)|..] == s[|s| - |TrimStart(s)|..];
      forall i | 1 <= i < |s| - |TrimStart(s)| ensures IsSpace(s[i]) {
        assert s[i] == s[1..][i - 1];
      }
    }
  }

  /** `TrimEnd` drops a run of whitespace from the back and stops at the last
      other character. */
  lemma {:induction false} TrimEndCuts(s: string)
    ensures |TrimEnd(s)| <= |s|
    ensures TrimEnd(s) == s[..|TrimEnd(s)|]
    ensures forall i :: |TrimEnd(s)| <= i < |s| ==> IsSpace(s[i])
    ensures TrimEnd(s) == [] || !IsSpace(TrimEnd(s)[|TrimEnd(s)| - 1])
    decreases |s|
  {
    if |s| > 0 && IsSpace(s[|s| - 1]) {
      TrimEndCuts(s[..|s| - 1]);
      assert s[..|s| - 1][..|TrimEnd(s)|] == s[..|TrimEnd(s)|];
      forall i | |TrimEnd(s)| <= i < |s| - 1 ensures IsSpace(s[i]) {
        assert s[i] == s[..|s| - 1][i];
      }
    }
  }

  /** `r` is `s` from position `i` on, with only whitespace cut from either end. */
  ghost predicate TrimmedAt(s: string, r: string, i: int) {
    && 0 <= i <= |s| - |r|
    && r == s[i..i + |r|]
    && (forall k :: 0 <= k < i ==> IsSpace(s[k]))
    && (forall k :: i + |r| <= k < |s| ==> IsSpace(s[k]))
  }

  /** `s.trim()`: `s` without its leading and trailing whitespace. */
  function Trim(s: string): string {
    TrimEnd(TrimStart(s))
  }

  /** A trimmed string neither starts nor ends with whitespace. */
  lemma TrimEnds(s: string)
    ensures Trim(s) == [] || (!IsSpace(Trim(s)[0]) && !IsSpace(Trim(s)[|Trim(s)| - 1]))
  {
    var t := TrimStart(s);
    TrimStartCuts(s);
    TrimEndCuts(t);
    if Trim(s) != [] {
      assert Trim(s)[0] == t[0];
    }
  }

  /** Trimming cuts only whitespace, and only from the two ends. */
  lemma TrimIsSlice(s: string)
    ensures exists i :: TrimmedAt(s, Trim(s), i)
  {
    var t := TrimStart(s);
    var r := Trim(s);
    TrimStartCuts(s);
    TrimEndCuts(t);
    var a := |s| - |t|;
    assert r == s[a..a + |r|];
    forall k | a + |r| <= k < |s| ensures IsSpace(s[k]) {
      assert s[k] == t[k - a];
    }
    assert TrimmedAt(s, r, a);
  }

  /** A string that neither starts nor ends with whitespace is its own trim. */
  lemma TrimFixed(s: string)
    requires s == [] || (!IsSpace(s[0]) && !IsSpace(s[|s| - 1]))
    ensures Trim(s) == s
  {
  }

  /** Trimming is idempotent. */
  lemma TrimIdempotent(s: string)
    ensures Trim(Trim(s)) == Trim(s)
  {
    TrimEnds(s);
    TrimFixed(Trim(s));
  }

  /** A trimmed string is empty exactly when the input is all whitespace. */
  lemma {:induction false} TrimEmpty(s: string)
    ensures Trim(s) == [] <==> forall k :: 0 <= k < |s| ==> IsSpace(s[k])
  {
    TrimIsSlice(s);
    TrimEnds(s);
    var i :| TrimmedAt(s, Trim(s), i);
    if Trim(s) != [] {
      assert !IsSpace(s[i]);
    }
  }

  // ---------------------------------------------------------------------------
  // `s.split(sep)` for a one-character separator.

  /** The pieces joined back with `sep` between them. */
  function Join(pieces: seq<string>, sep: char): string
    decreases |pieces|
  {
    if |pieces| == 0 then []
    else if |pieces| == 1 then pieces[0]
    else pieces[0] + [sep] + Join(pieces[1..], sep)
  }

  /** `s.split(sep)`: the maximal runs between separators, empty runs kept, so
      that there is always one piece more than there are separators. */
  function Split(s: string, sep: char): (r: seq<string>)
    ensures |r| >= 1
    ensures forall k :: 0 <= k < |r| ==> sep !in r[k]
    decreases |s|
  {
    if |s| == 0 then [[]]
    else
      var rest := Split(s[1..], sep);
      if s[0] == sep then [[]] + rest
      else [[s[0]] + rest[0]] + rest[1..]
  }

  lemma JoinCons(c: char, pieces: seq<string>, sep: char)
    requires |pieces| >= 1
    ensures Join([[c] + pieces[0]] + pieces[1..], sep) == [c] + Join(pieces, sep)
  {
    var p := [[c] + pieces[0]] + pieces[1..];
    assert p[1..] == pieces[1..];
  }

  /** Joining the pieces of a split gives back the text. */
  lemma {:induction false} JoinSplit(s: string, sep: char)
    ensures Join(Split(s, sep), sep) == s
    decreases |s|
  {
    if |s| > 0 {
      var rest := Split(s[1..], sep);
      JoinSplit(s[1..], sep);
      if s[0] == sep {
        assert ([[]] + rest)[1..] == rest;
        assert s == [sep] + s[1..];
      } else {
        JoinCons(s[0], rest, sep);
        assert s == [s[0]] + s[1..];
      }
    }
  }

  lemma {:induction false} SplitPrefix(a: string, b: string, sep: char)
    requires sep !in a
    ensures Split(a + [sep] + b, sep) == [a] + Split(b, sep)
    decreases |a|
  {
    if |a| == 0 {
      assert a + [sep] + b == [sep] + b;
      assert ([sep] + b)[1..] == b;
    } else {
      assert (a + [sep] + b)[1..] == a[1..] + [sep] + b;
      SplitPrefix(a[1..], b, sep);
      assert [a[0]] + a[1..] == a;
    }
  }

  lemma {:induction false} SplitNoSep(a: string, sep: char)
    requires sep !in a
    ensures Split(a, sep) == [a]
    decreases |a|
  {
    if |a| > 0 {
      SplitNoSep(a[1..], sep);
      assert [a[0]] + a[1..] == a;
    }
  }

  /** Splitting pieces that hold no separator, once joined, gives them back. */
  lemma {:induction false} SplitJoin(pieces: seq<string>, sep: char)
    requires |pieces| >= 1
    requires forall k :: 0 <= k < |pieces| ==> sep !in pieces[k]
    ensures Split(Join(pieces, sep), sep) == pieces
    decreases |pieces|
  {
    if |pieces| == 1 {
      SplitNoSep(pieces[0], sep);
    } else {
      SplitJoin(pieces[1..], sep);
      SplitPrefix(pieces[0], Join(pieces[1..], sep), sep);
      assert [pieces[0]] + pieces[1..] == pieces;
    }
  }

  // ---------------------------------------------------------------------------
  // `s.split(/\s+/)`.

  /** The text between maximal runs of whitespace, as the regular expression
      split gives it: a leading or trailing run yields an empty first or last
      field, and the empty string yields one empty field. */
  function Fields(s: string): (r: seq<string>)
    ensures |r| >= 1
    ensures forall k :: 0 <= k < |r| ==> NoSpace(r[k])
    ensures |s| > 0 && !IsSpace(s[0]) ==> r[0] != []
    decreases |s|
  {
    if |s| == 0 then [[]]
    else
      var rest := Fields(s[1..]);
      if IsSpace(s[0]) then
        if |s| > 1 && IsSpace(s[1]) then rest else [[]] + rest
      else
        [[s[0]] + rest[0]] + rest[1..]
  }

  /** A string that neither starts nor ends with whitespace splits into
      non-empty fields only. */
  lemma {:induction false} FieldsNonEmpty(s: string)
    requires s != [] && !IsSpace(s[0]) && !IsSpace(s[|s| - 1])
    ensures forall k :: 0 <= k < |Fields(s)| ==> Fields(s)[k] != []
    decreases |s|
  {
    var rest := Fields(s[1..]);
    if |s| == 1 {
      assert rest == [[]];
    } else if IsSpace(s[1]) {
      // the run of whitespace starting at s[1] ends before the last character
      FieldsAfterSpace(s[1..]);
    } else {
      FieldsNonEmpty(s[1..]);
    }
  }

  /** After a whitespace run, the fields of a string that does not end with
      whitespace are all non-empty except the leading empty one. */
  lemma {:induction false} FieldsAfterSpace(s: string)
    requires |s| > 1 && IsSpace(s[0]) && !IsSpace(s[|s| - 1])
    ensures Fields(s)[0] == []
    ensures forall k :: 1 <= k < |Fields(s)| ==> Fields(s)[k] != []
    decreases |s|
  {
    if IsSpace(s[1]) {
      FieldsAfterSpace(s[1..]);
    } else {
      FieldsNonEmpty(s[1..]);
    }
  }

  /** The non-whitespace characters of `s`, in order. */
  function Visible(s: string): string
    decreases |s|
  {
    if |s| == 0 then [] else (if IsSpace(s[0]) then [] else [s[0]]) + Visible(s[1..])
  }

  function Concat(pieces: seq<string>): string
    decreases |pieces|
  {
    if |pieces| == 0 then [] else pieces[0] + Concat(pieces[1..])
  }

  /** Splitting on whitespace loses the whitespace and nothing else, and keeps
      the order of the characters. */
  lemma {:induction false} FieldsKeepText(s: string)
    ensures Concat(Fields(s)) == Visible(s)
    decreases |s|
  {
    if |s| > 0 {
      var rest := Fields(s[1..]);
      FieldsKeepText(s[1..]);
      if IsSpace(s[0]) {
        if !(|s| > 1 && IsSpace(s[1])) {
          assert ([[]] + rest)[1..] == rest;
        }
      } else {
        var r := [[s[0]] + rest[0]] + rest[1..];
        assert r[1..] == rest[1..];
        assert Concat(rest) == rest[0] + Concat(rest[1..]);
      }
    }
  }

  /** A non-empty run of whitespace: what one match of `\s+` consumes. */
  predicate IsSpaceRun(sp: string) {
    sp != [] && forall k :: 0 <= k < |sp| ==> IsSpace(sp[k])
  }

  /** The words with the `k`-th gap placed between words `k` and `k + 1`. */
  function Spaced(words: seq<string>, gaps: seq<string>): string
    requires |words| == |gaps| + 1
    decreases |gaps|
  {
    if |gaps| == 0 then words[0] else words[0] + gaps[0] + Spaced(words[1..], gaps[1..])
  }

  /** Non-empty whitespace-free words separated by any runs of whitespace
      (spaces, tabs, several at once) split back into the same words. */
  lemma {:induction false} FieldsOfWords(words: seq<string>, gaps: seq<string>)
    requires |words| == |gaps| + 1
    requires forall k :: 0 <= k < |words| ==> words[k] != [] && NoSpace(words[k])
    requires forall k :: 0 <= k < |gaps| ==> IsSpaceRun(gaps[k])
    ensures Fields(Spaced(words, gaps)) == words
    decreases |gaps|
  {
    if |gaps| == 0 {
      FieldsOfWord(words[0]);
    } else {
      var b := Spaced(words[1..], gaps[1..]);
      FieldsOfWords(words[1..], gaps[1..]);
      assert b != [] && !IsSpace(b[0]) by { SpacedStart(words[1..], gaps[1..]); }
      FieldsWordSpace(words[0], gaps[0], b);
      assert [words[0]] + words[1..] == words;
    }
  }

  lemma SpacedStart(words: seq<string>, gaps: seq<string>)
    requires |words| == |gaps| + 1
    requires words[0] != [] && NoSpace(words[0])
    ensures Spaced(words, gaps) != [] && Spaced(words, gaps)[0] == words[0][0]
  {
  }

  lemma {:induction false} FieldsOfWord(w: string)
    requires NoSpace(w)
    ensures Fields(w) == [w]
    decreases |w|
  {
    if |w| > 0 {
      FieldsOfWord(w[1..]);
      assert [w[0]] + w[1..] == w;
    }
  }

  /** A whitespace-free field followed by a whitespace run is cut off as one
      field, whatever whitespace characters the run holds and however long it
      is. */
  lemma {:induction false} FieldsWordSpace(w: string, sp: string, b: string)
    requires NoSpace(w)
    requires IsSpaceRun(sp)
    requires b != [] && !IsSpace(b[0])
    ensures Fields(w + sp + b) == [w] + Fields(b)
    decreases |w|
  {
    if |w| == 0 {
      assert w + sp + b == sp + b;
      FieldsSpaceRun(sp, b);
    } else {
      assert (w + sp + b)[1..] == w[1..] + sp + b;
      FieldsWordSpace(w[1..], sp, b);
      assert [w[0]] + w[1..] == w;
    }
  }

  /** A whitespace run before a field yields one empty field, however long
      the run is. */
  lemma {:induction false} FieldsSpaceRun(sp: string, b: string)
    requires IsSpaceRun(sp)
    requires b != [] && !IsSpace(b[0])
    ensures Fields(sp + b) == [[]] + Fields(b)
    decreases |sp|
  {
    var s := sp + b;
    assert IsSpace(s[0]);
    if |sp| == 1 {
      assert s[1..] == b;
    } else {
      assert s[1..] == sp[1..] + b;
      assert IsSpace(s[1]);
      FieldsSpaceRun(sp[1..], b);
    }
  }
}
