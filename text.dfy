/** The Python `str` operations the core relies on: `split`, `join`,
    `startswith`, `lstrip`/`rstrip` with a character set, `split(sep)[0]`
    and `replace`. */
module Text {

  /** Number of occurrences of `c` in `s`. */
  function Count(s: string, c: char): nat
  {
    if |s| == 0 then 0 else (if s[0] == c then 1 else 0) + Count(s[1..], c)
  }

  /** `s.split(sep)` for a one-character separator: never empty, and one
      more field than there are separators. */
  function Split(s: string, sep: char): (r: seq<string>)
    ensures |r| == Count(s, sep) + 1
    ensures forall k :: 0 <= k < |r| ==> sep !in r[k]
  {
    if |s| == 0 then [""]
    else
      var rest := Split(s[1..], sep);
      if s[0] == sep then [""] + rest
      else [[s[0]] + rest[0]] + rest[1..]
  }

  lemma {:induction false} CountZero(s: string, c: char)
    ensures Count(s, c) == 0 <==> c !in s
  {
    if |s| > 0 {
      CountZero(s[1..], c);
      assert s == [s[0]] + s[1..];
    }
  }

  /** `sep.join(parts)`. */
  function Join(parts: seq<string>, sep: char): string
  {
    if |parts| == 0 then ""
    else if |parts| == 1 then parts[0]
    else parts[0] + [sep] + Join(parts[1..], sep)
  }

  /** `s.startswith(p)`. */
  predicate StartsWith(s: string, p: string)
  {
    |p| <= |s| && s[..|p|] == p
  }

  /** `s.endswith(p)`. */
  predicate EndsWith(s: string, p: string)
  {
    |p| <= |s| && s[|s| - |p|..] == p
  }

  lemma StartsWithConcat(a: string, b: string)
    ensures StartsWith(a + b, a)
  {
    assert (a + b)[..|a|] == a;
  }

  lemma EndsWithConcat(a: string, b: string)
    ensures EndsWith(a + b, b)
  {
    assert (a + b)[|a|..] == b;
  }

  /** A join of two or more fields starts with the first field and a
      separator. */
  lemma JoinStart(parts: seq<string>, sep: char)
    requires |parts| >= 2
    ensures StartsWith(Join(parts, sep), parts[0] + [sep])
  {
    StartsWithConcat(parts[0] + [sep], Join(parts[1..], sep));
  }

  /** A join of two or more fields ends with a separator and the last
      field. */
  lemma JoinEnd(parts: seq<string>, sep: char)
    requires |parts| >= 2
    ensures EndsWith(Join(parts, sep), [sep] + parts[|parts| - 1])
  {
    JoinLast(parts, sep);
    var init, last := Join(parts[..|parts| - 1], sep), parts[|parts| - 1];
    assert init + [sep] + last == init + ([sep] + last);
    EndsWithConcat(init, [sep] + last);
  }

  lemma JoinCons(c: char, p: string, ps: seq<string>, sep: char)
    ensures Join([[c] + p] + ps, sep) == [c] + Join([p] + ps, sep)
  {
    var a, b := [[c] + p] + ps, [p] + ps;
    assert a[1..] == ps && b[1..] == ps;
  }

  /** Joining the fields of a split gives back the text that was split. */
  lemma {:induction false} JoinSplit(s: string, sep: char)
    ensures Join(Split(s, sep), sep) == s
  {
    if |s| > 0 {
      var rest := Split(s[1..], sep);
      JoinSplit(s[1..], sep);
      if s[0] == sep {
        assert ([""] + rest)[1..] == rest;
        assert s == [s[0]] + s[1..];
      } else {
        JoinCons(s[0], rest[0], rest[1..], sep);
        assert [rest[0]] + rest[1..] == rest;
        assert s == [s[0]] + s[1..];
      }
    }
  }

  lemma {:induction false} SplitPrefix(p: string, t: string, sep: char)
    requires sep !in p
    ensures Split(p + t, sep) == [p + Split(t, sep)[0]] + Split(t, sep)[1..]
  {
    if |p| > 0 {
      SplitPrefix(p[1..], t, sep);
      assert (p + t)[1..] == p[1..] + t;
      assert [p[0]] + (p[1..] + Split(t, sep)[0]) == p + Split(t, sep)[0];
    } else {
      assert p + t == t && p + Split(t, sep)[0] == Split(t, sep)[0];
      assert [Split(t, sep)[0]] + Split(t, sep)[1..] == Split(t, sep);
    }
  }

  /** Splitting a join of separator-free fields gives back the fields. */
  lemma {:induction false} SplitJoin(parts: seq<string>, sep: char)
    requires |parts| > 0
    requires forall k :: 0 <= k < |parts| ==> sep !in parts[k]
    ensures Split(Join(parts, sep), sep) == parts
  {
    if |parts| == 1 {
      SplitPrefix(parts[0], "", sep);
      assert parts[0] + "" == parts[0];
    } else {
      var t := [sep] + Join(parts[1..], sep);
      SplitJoin(parts[1..], sep);
      assert t[1..] == Join(parts[1..], sep);
      assert Split(t, sep) == [""] + parts[1..];
      SplitPrefix(parts[0], t, sep);
      assert parts[0] + [sep] + Join(parts[1..], sep) == parts[0] + t;
      assert parts[0] + "" == parts[0];
      assert parts == [parts[0]] + parts[1..];
    }
  }

  /** The last field comes after the last separator. */
  lemma {:induction false} JoinLast(parts: seq<string>, sep: char)
    requires |parts| >= 2
    ensures Join(parts, sep) == Join(parts[..|parts| - 1], sep) + [sep] + parts[|parts| - 1]
  {
    if |parts| > 2 {
      JoinLast(parts[1..], sep);
      assert parts[1..][..|parts| - 2] == parts[..|parts| - 1][1..];
    }
  }

  /** `p` occurs in `s` at index `i`. */
  predicate OccursAt(s: string, p: string, i: int)
  {
    0 <= i && i + |p| <= |s| && s[i..i + |p|] == p
  }

  lemma OccursAtTail(s: string, p: string, j: nat)
    requires |s| > 0
    ensures OccursAt(s, p, j + 1) <==> OccursAt(s[1..], p, j)
  {
    if j + 1 + |p| <= |s| {
      assert s[j + 1..j + 1 + |p|] == s[1..][j..j + |p|];
    }
  }

  /** An occurrence starts with the first character of the pattern. */
  lemma OccursAtFirst(s: string, p: string, i: int)
    requires |p| > 0
    ensures OccursAt(s, p, i) ==> s[i] == p[0]
  {
    if OccursAt(s, p, i) {
      assert s[i..i + |p|][0] == s[i];
    }
  }

  /** `s.split(sep)[0]` is the text before the leftmost occurrence. */
  lemma FirstFieldAt(s: string, sep: string, n: nat)
    requires |sep| > 0 && OccursAt(s, sep, n)
    requires forall j :: 0 <= j < n ==> !OccursAt(s, sep, j)
    ensures FirstField(s, sep) == s[..n]
  {
    FirstFieldSpec(s, sep);
  }

  /** Without an occurrence, `s.split(sep)[0]` is all of `s`. */
  lemma FirstFieldAbsent(s: string, sep: string)
    requires |sep| > 0
    requires forall j :: !OccursAt(s, sep, j)
    ensures FirstField(s, sep) == s
  {
    FirstFieldSpec(s, sep);
  }

  /** `s.lstrip(chars)`: drops every leading character that belongs to the
      set `chars` (a character set, not a prefix). */
  function LStrip(s: string, chars: set<char>): (r: string)
    ensures |r| <= |s|
  {
    if |s| > 0 && s[0] in chars then LStrip(s[1..], chars) else s
  }

  /** What `lstrip` removes is a prefix made of stripped characters, and
      what it keeps does not start with one. */
  lemma {:induction false} LStripSpec(s: string, chars: set<char>)
    ensures var r := LStrip(s, chars);
      |r| <= |s| && r == s[|s| - |r|..] &&
      (forall k :: 0 <= k < |s| - |r| ==> s[k] in chars) &&
      (|r| > 0 ==> r[0] !in chars)
  {
    if |s| > 0 && s[0] in chars {
      LStripSpec(s[1..], chars);
    }
  }

  /** `s.rstrip(chars)`: drops every trailing character that belongs to
      the set `chars`. */
  function RStrip(s: string, chars: set<char>): (r: string)
    ensures |r| <= |s|
  {
    if |s| > 0 && s[|s| - 1] in chars then RStrip(s[..|s| - 1], chars) else s
  }

  /** What `rstrip` removes is a suffix made of stripped characters, and
      what it keeps does not end with one. */
  lemma {:induction false} RStripSpec(s: string, chars: set<char>)
    ensures var r := RStrip(s, chars);
      |r| <= |s| && r == s[..|r|] &&
      (forall k :: |r| <= k < |s| ==> s[k] in chars) &&
      (|r| > 0 ==> r[|r| - 1] !in chars)
  {
    if |s| > 0 && s[|s| - 1] in chars {
      RStripSpec(s[..|s| - 1], chars);
    }
  }

  /** `s.split(sep)[0]` for a non-empty separator string: the text before
      the leftmost occurrence of `sep`, or all of `s` when there is none. */
  function FirstField(s: string, sep: string): (r: string)
    requires |sep| > 0
    ensures |r| <= |s|
  {
    if |s| == 0 || StartsWith(s, sep) then "" else [s[0]] + FirstField(s[1..], sep)
  }

  /** The first field is a prefix free of `sep`, followed by `sep` unless
      it is all of `s`. */
  lemma {:induction false} FirstFieldSpec(s: string, sep: string)
    requires |sep| > 0
    ensures var r := FirstField(s, sep);
      |r| <= |s| && r == s[..|r|] &&
      (forall j :: 0 <= j < |r| ==> !OccursAt(s, sep, j)) &&
      (|r| < |s| ==> OccursAt(s, sep, |r|))
  {
    if |s| > 0 && !StartsWith(s, sep) {
      FirstFieldSpec(s[1..], sep);
      var r := FirstField(s, sep);
      assert r == s[..|r|];
      forall j | 0 < j < |r| ensures !OccursAt(s, sep, j) {
        OccursAtTail(s, sep, j - 1);
      }
      OccursAtTail(s, sep, |r| - 1);
    }
  }

  /** `s.replace(pat, rep)`: a left-to-right scan that replaces each
      non-overlapping occurrence of `pat`. */
  function ReplaceAll(s: string, pat: string, rep: string): (r: string)
    requires |pat| > 0
    ensures |pat| == |rep| ==> |r| == |s|
  {
    if |s| == 0 then ""
    else if StartsWith(s, pat) then rep + ReplaceAll(s[|pat|..], pat, rep)
    else [s[0]] + ReplaceAll(s[1..], pat, rep)
  }

  /** Without an occurrence of `pat`, `replace` changes nothing. */
  lemma {:induction false} ReplaceAllAbsent(s: string, pat: string, rep: string)
    requires |pat| > 0
    requires forall j :: !OccursAt(s, pat, j)
    ensures ReplaceAll(s, pat, rep) == s
  {
    if |s| > 0 {
      assert !OccursAt(s, pat, 0);
      forall j ensures !OccursAt(s[1..], pat, j) {
        if j >= 0 { OccursAtTail(s, pat, j); }
      }
      ReplaceAllAbsent(s[1..], pat, rep);
      assert s == [s[0]] + s[1..];
    }
  }

  /** The leftmost occurrence of `pat` is replaced by `rep` and the text
      before it is kept. */
  lemma {:induction false} ReplaceAllFirst(x: string, y: string, pat: string, rep: string)
    requires |pat| > 0
    requires forall j :: 0 <= j < |x| ==> !OccursAt(x + pat + y, pat, j)
    ensures ReplaceAll(x + pat + y, pat, rep) == x + rep + ReplaceAll(y, pat, rep)
  {
    var s := x + pat + y;
    if |x| == 0 {
      assert s == pat + y && s[..|pat|] == pat && s[|pat|..] == y;
    } else {
      assert !OccursAt(s, pat, 0);
      assert s[1..] == x[1..] + pat + y;
      forall j | 0 <= j < |x[1..]| ensures !OccursAt(x[1..] + pat + y, pat, j) {
        OccursAtTail(s, pat, j);
      }
      ReplaceAllFirst(x[1..], y, pat, rep);
      assert [x[0]] + (x[1..] + rep + ReplaceAll(y, pat, rep)) == x + rep + ReplaceAll(y, pat, rep);
    }
  }

  /** When `pat` occurs in `s`, `rep` stands where its leftmost occurrence was. */
  lemma ReplaceAllInserts(s: string, pat: string, rep: string, i: nat)
    requires |pat| > 0 && OccursAt(s, pat, i)
    ensures OccursAt(ReplaceAll(s, pat, rep), rep, |FirstField(s, pat)|)
  {
    var x := FirstField(s, pat);
    FirstFieldSpec(s, pat);
    assert |x| < |s|;
    var y := s[|x| + |pat|..];
    assert s == x + pat + y;
    ReplaceAllFirst(x, y, pat, rep);
    var r := ReplaceAll(s, pat, rep);
    assert r[|x|..|x| + |rep|] == rep;
  }

  /** `s.replace(c, d)` for one-character strings maps every `c` to `d`. */
  lemma {:induction false} ReplaceAllChar(s: string, c: char, d: char)
    ensures ReplaceAll(s, [c], [d]) == seq(|s|, i requires 0 <= i < |s| => if s[i] == c then d else s[i])
  {
    if |s| > 0 {
      ReplaceAllChar(s[1..], c, d);
    }
  }
}
