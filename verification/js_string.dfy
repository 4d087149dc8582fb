/** The JavaScript string primitives the monitor relies on: `split` with a
    one-character separator, `indexOf` used as a containment test, `trim`,
    `replace(/\"/g, '')` and `replace(/\s+/g, ' ')`. */
module JsString {
  import opened Seqs

  /** The characters matched by the regular-expression class `\s` and removed
      by `String.prototype.trim`: WhiteSpace and LineTerminator of ECMA-262. */
  predicate IsSpace(c: char) {
    || c == '\t' || c == '\n' || c == '\U{B}' || c == '\U{C}' || c == '\r'
    || c == ' ' || c == '\U{A0}' || c == '\U{1680}'
    || ('\U{2000}' <= c <= '\U{200A}')
    || c == '\U{2028}' || c == '\U{2029}' || c == '\U{202F}' || c == '\U{205F}'
    || c == '\U{3000}' || c == '\U{FEFF}'
  }

  /** Number of occurrences of `c` in `s`. */
  function Occurrences(s: string, c: char): nat {
    multiset(s)[c]
  }

  lemma OccurrencesCons(s: string, c: char)
    requires |s| > 0
    ensures Occurrences(s, c) == (if s[0] == c then 1 else 0) + Occurrences(s[1..], c)
  {
    assert s == [s[0]] + s[1..];
  }

  /** `s.split(sep)`: the pieces between occurrences of `sep`, never empty. */
  function Split(s: string, sep: char): (parts: seq<string>)
    ensures |parts| >= 1
    ensures forall i :: 0 <= i < |parts| ==> sep !in parts[i]
  {
    if |s| == 0 then [""]
    else
      var rest := Split(s[1..], sep);
      if s[0] == sep then [""] + rest
      else [[s[0]] + rest[0]] + rest[1..]
  }

  /** There is one more piece than there are separators. */
  lemma {:induction false} SplitCount(s: string, sep: char)
    ensures |Split(s, sep)| == Occurrences(s, sep) + 1
  {
    if |s| > 0 {
      SplitCount(s[1..], sep);
      OccurrencesCons(s, sep);
    }
  }

  /** The pieces of a split hold only characters of the text. */
  lemma {:induction false} SplitPieceChars(s: string, sep: char, c: char)
    requires c !in s
    ensures forall i :: 0 <= i < |Split(s, sep)| ==> c !in Split(s, sep)[i]
  {
    if |s| > 0 {
      SplitPieceChars(s[1..], sep, c);
    }
  }

  /** `parts.join(sep)`, the inverse of `Split`. */
  function Join(parts: seq<string>, sep: char): string
    requires |parts| >= 1
  {
    if |parts| == 1 then parts[0] else parts[0] + [sep] + Join(parts[1..], sep)
  }

  /** Splitting a text whose first piece contains no separator. */
  lemma {:induction false} SplitPrefix(a: string, s: string, sep: char)
    requires sep !in a
    ensures Split(a + s, sep) == [a + Split(s, sep)[0]] + Split(s, sep)[1..]
  {
    var parts := Split(s, sep);
    if |a| == 0 {
      assert a + s == s;
      assert a + parts[0] == parts[0];
      assert parts == [parts[0]] + parts[1..];
    } else {
      var w := a + s;
      assert w[0] == a[0] && w[0] != sep;
      assert w[1..] == a[1..] + s;
      SplitPrefix(a[1..], s, sep);
      var rest := Split(w[1..], sep);
      assert rest == [a[1..] + parts[0]] + parts[1..];
      assert Split(w, sep) == [[w[0]] + rest[0]] + rest[1..];
      assert rest[1..] == parts[1..];
      assert [a[0]] + (a[1..] + parts[0]) == a + parts[0];
    }
  }

  lemma SplitAtSeparator(s: string, sep: char)
    ensures Split([sep] + s, sep) == [""] + Split(s, sep)
  {
    assert ([sep] + s)[1..] == s;
  }

  /** Splitting undoes joining when no piece contains the separator. */
  lemma {:induction false} SplitJoin(parts: seq<string>, sep: char)
    requires |parts| >= 1
    requires forall i :: 0 <= i < |parts| ==> sep !in parts[i]
    ensures Split(Join(parts, sep), sep) == parts
  {
    if |parts| == 1 {
      SplitPrefix(parts[0], "", sep);
      assert parts[0] + "" == parts[0];
    } else {
      SplitJoin(parts[1..], sep);
      var tail := [sep] + Join(parts[1..], sep);
      assert Join(parts, sep) == parts[0] + tail;
      SplitPrefix(parts[0], tail, sep);
      SplitAtSeparator(Join(parts[1..], sep), sep);
      assert parts[0] + "" == parts[0];
      assert parts == [parts[0]] + parts[1..];
    }
  }

  /** Joining undoes splitting: no text is lost by `split`. */
  lemma {:induction false} JoinSplit(s: string, sep: char)
    ensures Join(Split(s, sep), sep) == s
  {
    if |s| > 0 {
      var rest := Split(s[1..], sep);
      JoinSplit(s[1..], sep);
      if s[0] == sep {
        assert ([""] + rest)[1..] == rest;
        assert s == [s[0]] + s[1..];
      } else if |rest| == 1 {
        assert s == [s[0]] + s[1..];
      } else {
        var parts := [[s[0]] + rest[0]] + rest[1..];
        assert parts[1..] == rest[1..];
        assert Join(rest, sep) == rest[0] + [sep] + Join(rest[1..], sep);
        assert s == [s[0]] + s[1..];
      }
    }
  }

  /** `t` occurs in `s` starting at index `i`. */
  ghost predicate OccursAt(s: string, t: string, i: int) {
    0 <= i && i + |t| <= |s| && s[i..i + |t|] == t
  }

  /** `s.indexOf(t) >= 0`, equivalently `s.indexOf(t) !== -1`. The empty
      string occurs in every string. */
  predicate Contains(s: string, t: string)
    decreases |s|
  {
    if t <= s then true
    else if |s| == 0 then false
    else Contains(s[1..], t)
  }

  /** `Contains` is exactly substring occurrence. */
  lemma {:induction false} ContainsIff(s: string, t: string)
    ensures Contains(s, t) <==> exists i :: OccursAt(s, t, i)
    decreases |s|
  {
    if t <= s {
      assert s[0..|t|] == t;
      assert OccursAt(s, t, 0);
    } else if |s| == 0 {
    } else {
      ContainsIff(s[1..], t);
      if exists i :: OccursAt(s[1..], t, i) {
        var i :| OccursAt(s[1..], t, i);
        assert s[1..][i..i + |t|] == s[i + 1..i + 1 + |t|];
        assert OccursAt(s, t, i + 1);
      }
      if exists i :: OccursAt(s, t, i) {
        var i :| OccursAt(s, t, i);
        if i > 0 {
          assert s[1..][i - 1..i - 1 + |t|] == s[i..i + |t|];
          assert OccursAt(s[1..], t, i - 1);
        }
      }
    }
  }

  /** `s.replace(/c/g, '')`: every `c` removed, everything else kept in order. */
  function RemoveAll(s: string, c: char): (r: string)
    ensures c !in r
    ensures forall d :: d != c ==> multiset(r)[d] == multiset(s)[d]
  {
    if |s| == 0 then ""
    else
      assert s == [s[0]] + s[1..];
      if s[0] == c then RemoveAll(s[1..], c) else [s[0]] + RemoveAll(s[1..], c)
  }

  /** Whether a character is other than `c`. */
  function Other(c: char): char -> bool {
    (d: char) => d != c
  }

  /** Removing every `c` keeps the other characters in their order: it is
      the subsequence of the characters other than `c`. */
  lemma {:induction false} RemoveAllKeepsOrder(s: string, c: char)
    ensures RemoveAll(s, c) == Filter(s, Other(c))
  {
    if |s| > 0 {
      RemoveAllKeepsOrder(s[1..], c);
      assert s == [s[0]] + s[1..];
      FilterAppend([s[0]], s[1..], Other(c));
      FilterOne(s[0], Other(c));
    }
  }

  /** `s.trimStart()`: drops leading white space and nothing else. */
  function TrimStart(s: string): (r: string)
    ensures |r| <= |s|
    ensures |r| > 0 ==> !IsSpace(r[0])
  {
    if |s| > 0 && IsSpace(s[0]) then TrimStart(s[1..]) else s
  }

  /** What `TrimStart` drops is a run of white space at the front. */
  lemma {:induction false} TrimStartSuffix(s: string)
    ensures var r := TrimStart(s);
            && r == s[|s| - |r|..]
            && forall k :: 0 <= k < |s| - |r| ==> IsSpace(s[k])
    decreases |s|
  {
    if |s| > 0 && IsSpace(s[0]) {
      TrimStartSuffix(s[1..]);
      var r := TrimStart(s);
      forall k | 0 <= k < |s| - |r| ensures IsSpace(s[k]) {
        if k > 0 { assert s[k] == s[1..][k - 1]; }
      }
    }
  }

  /** `s.trimEnd()`: drops trailing white space and nothing else. */
  function TrimEnd(s: string): (r: string)
    ensures |r| <= |s| && r == s[..|r|]
    ensures forall k :: |r| <= k < |s| ==> IsSpace(s[k])
    ensures |r| > 0 ==> !IsSpace(r[|r| - 1])
  {
    if |s| > 0 && IsSpace(s[|s| - 1]) then TrimEnd(s[..|s| - 1]) else s
  }

  /** `s.trim()`: the slice of `s` left once the white space at both ends
      is dropped; white space inside is kept. */
  function Trim(s: string): (r: string)
    ensures |r| > 0 ==> !IsSpace(r[0]) && !IsSpace(r[|r| - 1])
    ensures exists i, j :: 0 <= i <= j <= |s| && r == s[i..j]
              && (forall k :: 0 <= k < i ==> IsSpace(s[k]))
              && (forall k :: j <= k < |s| ==> IsSpace(s[k]))
  {
    var t := TrimStart(s);
    var r := TrimEnd(t);
    TrimStartSuffix(s);
    var i := |s| - |t|;
    assert r == s[i..i + |r|];
    assert forall k :: i + |r| <= k < |s| ==> s[k] == t[k - i];
    r
  }

  /** `s.replace(/\s+/g, ' ')`: every maximal run of white space becomes
      one blank; all other characters are kept in order. */
  function Collapse(s: string): string
    decreases |s|
  {
    if |s| == 0 then ""
    else if IsSpace(s[0]) then " " + Collapse(TrimStart(s[1..]))
    else [s[0]] + Collapse(s[1..])
  }

  /** Text already in collapsed form: white space only as single blanks. */
  ghost predicate Collapsed(s: string) {
    && (forall i :: 0 <= i < |s| && IsSpace(s[i]) ==> s[i] == ' ')
    && (forall i :: 0 <= i < |s| - 1 ==> !(IsSpace(s[i]) && IsSpace(s[i + 1])))
  }

  /** Collapsing leaves white space only as single blanks, keeps the first
      character unless it is white space, and never lengthens the text. */
  lemma {:induction false} CollapseShape(s: string)
    ensures var r := Collapse(s);
            && |r| <= |s|
            && (|r| == 0 <==> |s| == 0)
            && (|s| > 0 ==> r[0] == (if IsSpace(s[0]) then ' ' else s[0]))
            && Collapsed(r)
    decreases |s|
  {
    if |s| > 0 {
      var r := Collapse(s);
      if IsSpace(s[0]) {
        var t := TrimStart(s[1..]);
        CollapseShape(t);
        var rt := Collapse(t);
        assert r == " " + rt;
        assert |rt| > 0 ==> !IsSpace(rt[0]);
        forall i | 0 <= i < |r| - 1 ensures !(IsSpace(r[i]) && IsSpace(r[i + 1])) {
          if i > 0 { assert r[i] == rt[i - 1] && r[i + 1] == rt[i]; }
        }
      } else {
        CollapseShape(s[1..]);
        var rt := Collapse(s[1..]);
        assert r == [s[0]] + rt;
        forall i | 0 <= i < |r| - 1 ensures !(IsSpace(r[i]) && IsSpace(r[i + 1])) {
          if i > 0 { assert r[i] == rt[i - 1] && r[i + 1] == rt[i]; }
        }
      }
    }
  }

  /** Collapsing is the identity on collapsed text, so it is idempotent. */
  lemma {:induction false} CollapseCollapsed(s: string)
    requires Collapsed(s)
    ensures Collapse(s) == s
    decreases |s|
  {
    if |s| > 0 {
      assert Collapsed(s[1..]) by {
        forall i | 0 <= i < |s[1..]| - 1
          ensures !(IsSpace(s[1..][i]) && IsSpace(s[1..][i + 1]))
        {
          assert s[1..][i] == s[i + 1] && s[1..][i + 1] == s[i + 2];
        }
      }
      CollapseCollapsed(s[1..]);
      if IsSpace(s[0]) {
        assert |s| > 1 ==> !IsSpace(s[1]);
        assert TrimStart(s[1..]) == s[1..];
        assert s == " " + s[1..];
      } else {
        assert s == [s[0]] + s[1..];
      }
    }
  }

  lemma CollapseIdempotent(s: string)
    ensures Collapse(Collapse(s)) == Collapse(s)
  {
    CollapseShape(s);
    CollapseCollapsed(Collapse(s));
  }

  /** A character that is not white space. */
  predicate IsText(c: char) {
    !IsSpace(c)
  }

  lemma {:induction false} FilterBlank(w: string)
    requires forall k :: 0 <= k < |w| ==> IsSpace(w[k])
    ensures Filter(w, IsText) == []
  {
    if |w| > 0 {
      FilterBlank(w[..|w| - 1]);
    }
  }

  /** Collapsing keeps every character that is not white space, in order. */
  lemma {:induction false} CollapseKeepsText(s: string)
    ensures Filter(Collapse(s), IsText) == Filter(s, IsText)
    decreases |s|
  {
    if |s| > 0 {
      assert s == [s[0]] + s[1..];
      FilterAppend([s[0]], s[1..], IsText);
      FilterOne(s[0], IsText);
      if IsSpace(s[0]) {
        var t := TrimStart(s[1..]);
        CollapseKeepsText(t);
        FilterAppend(" ", Collapse(t), IsText);
        FilterOne(' ', IsText);
        TrimStartSuffix(s[1..]);
        var blank := s[1..][..|s[1..]| - |t|];
        assert s[1..] == blank + t;
        FilterBlank(blank);
        FilterAppend(blank, t, IsText);
      } else {
        CollapseKeepsText(s[1..]);
        FilterAppend([s[0]], Collapse(s[1..]), IsText);
      }
    }
  }

  /** A non-empty run of characters none of which is white space. */
  predicate Word(w: string) {
    |w| > 0 && forall k :: 0 <= k < |w| ==> !IsSpace(w[k])
  }

  /** A non-empty run of white space. */
  predicate Gap(w: string) {
    |w| > 0 && forall k :: 0 <= k < |w| ==> IsSpace(w[k])
  }

  /** Words laid out with gaps between them, `words[0] + gaps[0] + words[1] + …`,
      as the columns of a listing row are. */
  function Spaced(words: seq<string>, gaps: seq<string>): string
    requires |words| >= 1 && |gaps| == |words| - 1
  {
    if |words| == 1 then words[0] else words[0] + gaps[0] + Spaced(words[1..], gaps[1..])
  }

  lemma {:induction false} CollapseWord(a: string, x: string)
    requires forall k :: 0 <= k < |a| ==> !IsSpace(a[k])
    ensures Collapse(a + x) == a + Collapse(x)
  {
    if |a| > 0 {
      var w := a + x;
      CollapseWord(a[1..], x);
      assert w[0] == a[0] && !IsSpace(w[0]);
      assert w[1..] == a[1..] + x;
      assert Collapse(w) == [a[0]] + Collapse(a[1..] + x);
      assert a == [a[0]] + a[1..];
    } else {
      assert a + x == x;
    }
  }

  lemma {:induction false} TrimStartBlank(w: string, x: string)
    requires forall k :: 0 <= k < |w| ==> IsSpace(w[k])
    requires |x| > 0 ==> !IsSpace(x[0])
    ensures TrimStart(w + x) == x
  {
    if |w| > 0 {
      TrimStartBlank(w[1..], x);
      assert (w + x)[1..] == w[1..] + x;
    } else {
      assert w + x == x;
    }
  }

  lemma CollapseGap(w: string, x: string)
    requires Gap(w)
    requires |x| > 0 ==> !IsSpace(x[0])
    ensures Collapse(w + x) == " " + Collapse(x)
  {
    assert (w + x)[0] == w[0];
    assert (w + x)[1..] == w[1..] + x;
    TrimStartBlank(w[1..], x);
  }

  /** Collapsing words laid out with any gaps gives the words joined by
      single blanks. */
  lemma {:induction false} CollapseSpaced(words: seq<string>, gaps: seq<string>)
    requires |words| >= 1 && |gaps| == |words| - 1
    requires forall i :: 0 <= i < |words| ==> Word(words[i])
    requires forall i :: 0 <= i < |gaps| ==> Gap(gaps[i])
    ensures Collapse(Spaced(words, gaps)) == Join(words, ' ')
  {
    if |words| == 1 {
      CollapseWord(words[0], "");
      assert words[0] + "" == words[0];
    } else {
      var rest := Spaced(words[1..], gaps[1..]);
      CollapseSpaced(words[1..], gaps[1..]);
      assert Word(words[1]);
      assert rest[0] == words[1][0];
      CollapseGap(gaps[0], rest);
      CollapseWord(words[0], gaps[0] + rest);
      assert words[0] + gaps[0] + rest == words[0] + (gaps[0] + rest);
    }
  }
}
