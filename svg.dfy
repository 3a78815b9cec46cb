/** `add_svg_style`: the rendered SVG, read as a list of lines, is annotated
    so that hovering over a source node highlights the edges leaving it.
    Every line that opens with a comment marker names a node or an edge;
    the element on the next line gets that name as an extra class, and a
    stylesheet with one hover rule per name replaces the closing tag. */
module Svg {
  import opened Results
  import opened Seqs
  import opened Text

  /** The comment that Graphviz writes before every node and edge element. */
  const Marker: string := "<!-- "
  /** The arrow between the two ends of an edge name, HTML-escaped. */
  const Arrow: string := "&#45;&gt;"
  /** The characters `lstrip("<!-- ")` and `rstrip(" -->")` remove. */
  const LStripChars: set<char> := {'<', '!', '-', ' '}
  const RStripChars: set<char> := {' ', '-', '>'}
  /** The two texts the pattern `class="(edge|node)">` matches, and the
      text both start with. */
  const ClassOpen: string := "class=\""
  const EdgeClass: string := ClassOpen + "edge\">"
  const NodeClass: string := ClassOpen + "node\">"
  const EdgeHoverRule: string := "g.edge:hover * {stroke-width: 5;}\n"
  const SvgEnd: string := "</svg>"

  /** `.replace("/", "-").replace(".", "-")`: both characters become `-`,
      everything else stays. */
  function Sanitize(s: string): (r: string)
    ensures |r| == |s|
  {
    ReplaceAll(ReplaceAll(s, "/", "-"), ".", "-")
  }

  /** Sanitizing maps `/` and `.` to `-` character by character, so neither
      is left in the result. */
  lemma SanitizeAt(s: string)
    ensures |Sanitize(s)| == |s|
    ensures forall k :: 0 <= k < |s| ==>
      Sanitize(s)[k] == (if s[k] == '/' || s[k] == '.' then '-' else s[k])
    ensures '/' !in Sanitize(s) && '.' !in Sanitize(s)
  {
    ReplaceAllChar(s, '/', '-');
    ReplaceAllChar(ReplaceAll(s, "/", "-"), '.', '-');
  }

  /** The class name taken from a marker line: strip the comment around it,
      keep what comes before the first arrow, and sanitize it. */
  function Token(line: string): (r: string)
    ensures |r| <= |line|
  {
    Sanitize(FirstField(RStrip(LStrip(line, LStripChars), RStripChars), Arrow))
  }

  /** Every token can serve as a class name in a CSS selector: it holds
      neither a path separator nor a dot. */
  lemma TokenIsClassName(line: string)
    ensures '/' !in Token(line) && '.' !in Token(line)
  {
    SanitizeAt(FirstField(RStrip(LStrip(line, LStripChars), RStripChars), Arrow));
  }

  /** The replacement text `class="\1 <token>">` for one matched class. */
  function Tagged(cls: string, t: string): string
  {
    ClassOpen + cls + " " + t + "\">"
  }

  /** The pattern occurs at `j`. */
  predicate ClassAt(s: string, j: int)
  {
    OccursAt(s, EdgeClass, j) || OccursAt(s, NodeClass, j)
  }

  /** `pat_g.sub(...)`: one left-to-right scan that replaces every
      non-overlapping match of either class text by its tagged form. */
  function RewriteClass(s: string, t: string): (r: string)
    ensures |r| >= |s|
    decreases |s|
  {
    if |s| == 0 then ""
    else if StartsWith(s, EdgeClass) then Tagged("edge", t) + RewriteClass(s[|EdgeClass|..], t)
    else if StartsWith(s, NodeClass) then Tagged("node", t) + RewriteClass(s[|NodeClass|..], t)
    else [s[0]] + RewriteClass(s[1..], t)
  }

  /** A line without a match is left as it is. */
  lemma {:induction false} RewriteAbsent(s: string, t: string)
    requires forall j :: !ClassAt(s, j)
    ensures RewriteClass(s, t) == s
  {
    if |s| > 0 {
      assert !ClassAt(s, 0);
      forall j ensures !ClassAt(s[1..], j) {
        if j >= 0 {
          assert !ClassAt(s, j + 1);
          OccursAtTail(s, EdgeClass, j);
          OccursAtTail(s, NodeClass, j);
        }
      }
      RewriteAbsent(s[1..], t);
      assert s == [s[0]] + s[1..];
    }
  }

  /** The two class texts differ right after `class="`, so a line that
      starts with one does not start with the other. */
  lemma ClassTextsDiffer(s: string)
    ensures StartsWith(s, EdgeClass) ==> !StartsWith(s, NodeClass)
  {
    if StartsWith(s, EdgeClass) {
      assert s[|ClassOpen|] == EdgeClass[|ClassOpen|] == 'e' != NodeClass[|ClassOpen|];
    }
  }

  /** A line that does not start with a match keeps its first character. */
  lemma RewriteStep(s: string, t: string)
    requires |s| > 0 && !ClassAt(s, 0)
    ensures RewriteClass(s, t) == [s[0]] + RewriteClass(s[1..], t)
  {
  }

  /** Dropping the first character moves every match one place left. */
  lemma NoMatchTail(s: string, n: nat)
    requires |s| > 0 && forall j :: 0 <= j < n ==> !ClassAt(s, j)
    ensures forall j :: 0 <= j < n - 1 ==> !ClassAt(s[1..], j)
  {
    forall j | 0 <= j < n - 1 ensures !ClassAt(s[1..], j) {
      assert !ClassAt(s, j + 1);
      OccursAtTail(s, EdgeClass, j);
      OccursAtTail(s, NodeClass, j);
    }
  }

  /** A line that starts with a match gets it tagged. */
  lemma RewriteMatch(c: string, tag: string, y: string, t: string)
    requires (c == EdgeClass && tag == Tagged("edge", t)) || (c == NodeClass && tag == Tagged("node", t))
    ensures RewriteClass(c + y, t) == tag + RewriteClass(y, t)
  {
    var s := c + y;
    assert s[..|c|] == c && s[|c|..] == y;
    ClassTextsDiffer(s);
  }

  /** The scan copies the text before the leftmost match and carries on
      from the match, whatever the match becomes. */
  lemma {:induction false} RewriteBeforeMatch(x: string, m: string, tag: string, t: string)
    requires RewriteClass(m, t) == tag
    requires forall j :: 0 <= j < |x| ==> !ClassAt(x + m, j)
    ensures RewriteClass(x + m, t) == x + tag
  {
    if |x| > 0 {
      var s := x + m;
      assert !ClassAt(s, 0);
      RewriteStep(s, t);
      NoMatchTail(s, |x|);
      assert s[1..] == x[1..] + m;
      RewriteBeforeMatch(x[1..], m, tag, t);
      assert [x[0]] + (x[1..] + tag) == x + tag;
    } else {
      assert x + m == m;
    }
  }

  /** The leftmost match of `class="edge">` or `class="node">` becomes
      `class="edge <token>">` or `class="node <token>">`: the class it had
      is kept, the token is added after it, the text before the match is
      left alone and the scan resumes right after the match. */
  lemma RewriteFirstMatch(x: string, c: string, tag: string, y: string, t: string)
    requires (c == EdgeClass && tag == Tagged("edge", t)) || (c == NodeClass && tag == Tagged("node", t))
    requires forall j :: 0 <= j < |x| ==> !ClassAt(x + c + y, j)
    ensures RewriteClass(x + c + y, t) == x + tag + RewriteClass(y, t)
  {
    RewriteMatch(c, tag, y, t);
    assert x + c + y == x + (c + y);
    RewriteBeforeMatch(x, c + y, tag + RewriteClass(y, t), t);
  }

  /** At the leftmost match in a line, the rewritten line holds the tagged
      class, and everything before it is unchanged. */
  lemma RewriteTagsFirstMatch(s: string, t: string, i: nat)
    requires ClassAt(s, i)
    requires forall j :: 0 <= j < i ==> !ClassAt(s, j)
    ensures var cls := if OccursAt(s, EdgeClass, i) then "edge" else "node";
      && RewriteClass(s, t)[..i] == s[..i]
      && OccursAt(RewriteClass(s, t), Tagged(cls, t), i)
  {
    var cls := if OccursAt(s, EdgeClass, i) then "edge" else "node";
    var c := if OccursAt(s, EdgeClass, i) then EdgeClass else NodeClass;
    var x, y := s[..i], s[i + |c|..];
    assert s == x + c + y;
    RewriteFirstMatch(x, c, Tagged(cls, t), y, t);
    var r := RewriteClass(s, t);
    assert r[..i] == x;
    assert r[i..i + |Tagged(cls, t)|] == Tagged(cls, t);
  }

  /** A tagged class starts with `class="`, whatever follows it. */
  lemma TaggedStart(cls: string, t: string, rest: string, k: nat)
    requires k <= |ClassOpen|
    ensures (Tagged(cls, t) + rest)[..k] == ClassOpen[..k]
  {
    var tail := cls + " " + t + "\">";
    assert Tagged(cls, t) + rest == ClassOpen + (tail + rest);
  }

  /** The rewrite keeps a line's first characters, up to the length of
      `class="`: a tagged text starts like the matched one. */
  lemma {:induction false} RewritePrefix(s: string, t: string, k: nat)
    requires k <= |ClassOpen|
    ensures k <= |s| ==> k <= |RewriteClass(s, t)| && RewriteClass(s, t)[..k] == s[..k]
  {
    if 0 < k <= |s| {
      var out := RewriteClass(s, t);
      if StartsWith(s, EdgeClass) {
        TaggedStart("edge", t, RewriteClass(s[|EdgeClass|..], t), k);
        assert s[..k] == EdgeClass[..k] == ClassOpen[..k];
      } else if StartsWith(s, NodeClass) {
        TaggedStart("node", t, RewriteClass(s[|NodeClass|..], t), k);
        assert s[..k] == NodeClass[..k] == ClassOpen[..k];
      } else {
        RewritePrefix(s[1..], t, k - 1);
        assert out == [s[0]] + RewriteClass(s[1..], t);
        assert out[..k] == [s[0]] + RewriteClass(s[1..], t)[..k - 1];
        assert s[..k] == [s[0]] + s[1..][..k - 1];
      }
    }
  }

  /** Whether a line opens with the comment marker does not change when
      its classes are tagged. */
  lemma RewriteKeepsMarker(s: string, t: string)
    ensures StartsWith(RewriteClass(s, t), Marker) <==> StartsWith(s, Marker)
  {
    if |s| >= |Marker| {
      RewritePrefix(s, t, |Marker|);
    } else {
      forall j ensures !ClassAt(s, j) {
      }
      RewriteAbsent(s, t);
    }
  }

  /** The loop body of `add_svg_style` at index `i`: a marker line tags
      the classes on the line after it, and a marker on the last line
      reads past the end of the list. */
  function StepAt(a: seq<string>, i: nat): (r: Result<seq<string>>)
    requires i < |a|
    ensures r.Failure? <==> StartsWith(a[i], Marker) && i + 1 == |a|
    ensures r.Success? ==> |r.value| == |a|
  {
    if !StartsWith(a[i], Marker) then Success(a)
    else if i + 1 == |a| then Failure(IndexError)
    else Success(a[i + 1 := RewriteClass(a[i + 1], Token(a[i]))])
  }

  /** The list after the loop has run over the indices below `i`. */
  function AnnotateUpTo(lines: seq<string>, i: nat): (r: Result<seq<string>>)
    requires i <= |lines|
    ensures r.Success? ==> |r.value| == |lines|
  {
    if i == 0 then Success(lines)
    else
      match AnnotateUpTo(lines, i - 1)
      case Failure(e) => Failure(e)
      case Success(a) => StepAt(a, i - 1)
  }

  /** The list after the whole loop. */
  function Annotated(lines: seq<string>): (r: Result<seq<string>>)
    ensures r.Success? ==> |r.value| == |lines|
  {
    AnnotateUpTo(lines, |lines|)
  }

  /** The loop fails only when it has passed the last line and that line
      is a marker; until then every line keeps whether it is a marker. */
  lemma {:induction false} AnnotateUpToFails(lines: seq<string>, i: nat)
    requires i <= |lines|
    ensures AnnotateUpTo(lines, i).Failure? <==>
      i == |lines| && |lines| > 0 && StartsWith(lines[|lines| - 1], Marker)
    ensures AnnotateUpTo(lines, i).Failure? ==> AnnotateUpTo(lines, i).error == IndexError
    ensures AnnotateUpTo(lines, i).Success? ==>
      forall k :: 0 <= k < |lines| ==>
        (StartsWith(AnnotateUpTo(lines, i).value[k], Marker) <==> StartsWith(lines[k], Marker))
  {
    if i > 0 {
      AnnotateUpToFails(lines, i - 1);
      var a := AnnotateUpTo(lines, i - 1).value;
      assert StartsWith(a[i - 1], Marker) <==> StartsWith(lines[i - 1], Marker);
      if StartsWith(a[i - 1], Marker) && i < |lines| {
        var b := a[i := RewriteClass(a[i], Token(a[i - 1]))];
        assert AnnotateUpTo(lines, i) == Success(b);
        RewriteKeepsMarker(a[i], Token(a[i - 1]));
        forall k | 0 <= k < |lines|
          ensures StartsWith(b[k], Marker) <==> StartsWith(lines[k], Marker)
        {
          if k != i {
            assert b[k] == a[k];
          }
        }
      }
    }
  }

  /** Line `k` of `a` after the loop has passed index `i - 1`: the input
      line, with its classes tagged by the token of line `k - 1` exactly
      when that line is a marker and the loop has passed it. */
  predicate LineAfter(lines: seq<string>, a: seq<string>, i: nat, k: nat)
    requires |a| == |lines| && k < |lines|
  {
    a[k] == if 0 < k <= i && StartsWith(lines[k - 1], Marker)
            then RewriteClass(lines[k], Token(a[k - 1])) else lines[k]
  }

  /** The loop in closed form, line by line. */
  lemma {:induction false} AnnotateUpToLines(lines: seq<string>, i: nat)
    requires i <= |lines| && AnnotateUpTo(lines, i).Success?
    ensures forall k :: 0 <= k < |lines| ==> LineAfter(lines, AnnotateUpTo(lines, i).value, i, k)
  {
    if i > 0 {
      assert AnnotateUpTo(lines, i - 1).Success?;
      AnnotateUpToFails(lines, i - 1);
      AnnotateUpToLines(lines, i - 1);
      var a := AnnotateUpTo(lines, i - 1).value;
      var b := AnnotateUpTo(lines, i).value;
      assert AnnotateUpTo(lines, i) == StepAt(a, i - 1);
      assert StartsWith(a[i - 1], Marker) <==> StartsWith(lines[i - 1], Marker);
      if StartsWith(a[i - 1], Marker) {
        assert b == a[i := RewriteClass(a[i], Token(a[i - 1]))];
      } else {
        assert b == a;
      }
      forall k | 0 <= k < |lines| ensures LineAfter(lines, b, i, k) {
        assert LineAfter(lines, a, i - 1, k);
        if k != i {
          assert b[k] == a[k];
          if 0 < k < i {
            assert b[k - 1] == a[k - 1];
          }
        } else {
          assert b[k - 1] == a[k - 1];
        }
      }
    }
  }

  /** What the loop does to the list, line by line: only a line right
      after a marker changes, it gets its classes tagged with the token of
      that marker, and no line starts or stops being a marker. */
  lemma AnnotatedLines(lines: seq<string>, k: nat)
    requires Annotated(lines).Success? && k < |lines|
    ensures var a := Annotated(lines).value;
      && ((k == 0 || !StartsWith(lines[k - 1], Marker)) ==> a[k] == lines[k])
      && (k > 0 && StartsWith(lines[k - 1], Marker) ==>
            StartsWith(a[k - 1], Marker) && a[k] == RewriteClass(lines[k], Token(a[k - 1])))
      && (StartsWith(a[k], Marker) <==> StartsWith(lines[k], Marker))
  {
    AnnotateUpToFails(lines, |lines|);
    AnnotateUpToLines(lines, |lines|);
    var a := Annotated(lines).value;
    assert LineAfter(lines, a, |lines|, k);
  }

  /** The tokens of the marker lines below index `i`. */
  function TokensUpTo(a: seq<string>, i: nat): set<string>
    requires i <= |a|
  {
    set k | 0 <= k < i && StartsWith(a[k], Marker) :: Token(a[k])
  }

  /** `src_nodes` after the loop: the token of every marker line. */
  function MarkerTokens(a: seq<string>): set<string>
  {
    TokensUpTo(a, |a|)
  }

  lemma TokensUpToStep(a: seq<string>, i: nat)
    requires i < |a|
    ensures TokensUpTo(a, i + 1) ==
      TokensUpTo(a, i) + (if StartsWith(a[i], Marker) then {Token(a[i])} else {})
  {
  }

  lemma TokensUpToFrame(a: seq<string>, b: seq<string>, i: nat)
    requires i <= |a| && i <= |b|
    requires forall k :: 0 <= k < i ==> a[k] == b[k]
    ensures TokensUpTo(a, i) == TokensUpTo(b, i)
  {
    forall t | t in TokensUpTo(a, i) ensures t in TokensUpTo(b, i) {
      var k :| 0 <= k < i && StartsWith(a[k], Marker) && t == Token(a[k]);
      assert b[k] == a[k];
    }
    forall t | t in TokensUpTo(b, i) ensures t in TokensUpTo(a, i) {
      var k :| 0 <= k < i && StartsWith(b[k], Marker) && t == Token(b[k]);
      assert b[k] == a[k];
    }
  }

  /** The hover rule for one source node: hovering over the node
      thickens every element that carries its class. */
  function Rule(t: string): string
  {
    ".node." + t + ":hover ~ ." + t + "{stroke-width: 5;}\n"
  }

  /** The rule of every walked node, in walking order. */
  function RuleTexts(order: seq<string>): (r: seq<string>)
    ensures |r| == |order|
  {
    seq(|order|, i requires 0 <= i < |order| => Rule(order[i]))
  }

  /** The rules for the nodes in the order the set is walked. */
  function Rules(order: seq<string>): string
  {
    Flatten(RuleTexts(order))
  }

  lemma RulesSnoc(order: seq<string>, t: string)
    ensures Rules(order + [t]) == Rules(order) + Rule(t)
  {
    assert RuleTexts(order + [t]) == RuleTexts(order) + [Rule(t)];
    FlattenSnoc(RuleTexts(order), Rule(t));
  }

  /** The `<style>` element with the edge hover rule and the node rules,
      followed by the closing tag it replaces. */
  function StyleSheet(order: seq<string>): (r: string)
    ensures StartsWith(r, "<style>" + EdgeHoverRule) && EndsWith(r, "</style></svg>")
  {
    "<style>" + EdgeHoverRule + Rules(order) + "</style></svg>"
  }

  /** The stylesheet holds the rule of every walked node, right after the
      rules of the nodes walked before it. */
  lemma StyleSheetHasRule(order: seq<string>, k: nat)
    requires k < |order|
    ensures OccursAt(StyleSheet(order), Rule(order[k]), |"<style>" + EdgeHoverRule| + |Rules(order[..k])|)
  {
    var pre, mid, post := RuleTexts(order[..k]), [Rule(order[k])], RuleTexts(order[k + 1..]);
    assert RuleTexts(order) == pre + mid + post;
    FlattenAppend(pre + mid, post);
    FlattenSnoc(pre, Rule(order[k]));
    var head, p, rule, q := "<style>" + EdgeHoverRule, Flatten(pre), Rule(order[k]), Flatten(post);
    assert StyleSheet(order) == head + p + rule + (q + "</style></svg>");
  }

  /** The stylesheet stands where the first closing tag was; a document
      without a closing tag is returned without any stylesheet. */
  lemma StyleSheetPlaced(text: string, order: seq<string>)
    ensures (exists i :: OccursAt(text, SvgEnd, i)) ==>
      OccursAt(ReplaceAll(text, SvgEnd, StyleSheet(order)), StyleSheet(order), |FirstField(text, SvgEnd)|)
    ensures (forall i :: !OccursAt(text, SvgEnd, i)) ==> ReplaceAll(text, SvgEnd, StyleSheet(order)) == text
  {
    if exists i :: OccursAt(text, SvgEnd, i) {
      var i :| OccursAt(text, SvgEnd, i);
      ReplaceAllInserts(text, SvgEnd, StyleSheet(order), i);
    } else {
      ReplaceAllAbsent(text, SvgEnd, StyleSheet(order));
    }
  }

  /** `split("&#45;&gt;")[0]` of `name + "&#45;&gt;" + rest` is `name`
      when `name` has no `&`. */
  lemma FirstFieldName(name: string, rest: string)
    requires '&' !in name
    ensures FirstField(name + Arrow + rest, Arrow) == name
  {
    var body := name + Arrow + rest;
    assert body[|name|..|name| + |Arrow|] == Arrow;
    forall j | 0 <= j < |name| ensures !OccursAt(body, Arrow, j) {
      OccursAtFirst(body, Arrow, j);
      assert body[j] == name[j];
    }
    FirstFieldAt(body, Arrow, |name|);
    assert body[..|name|] == name;
  }

  /** `split("&#45;&gt;")[0]` of a text without `&` is the whole text. */
  lemma FirstFieldNoArrow(body: string)
    requires '&' !in body
    ensures FirstField(body, Arrow) == body
  {
    forall j ensures !OccursAt(body, Arrow, j) {
      OccursAtFirst(body, Arrow, j);
    }
    FirstFieldAbsent(body, Arrow);
  }

  /** `rstrip(" -->")` stops at the latest at the `;` that ends the arrow:
      it keeps the name and the arrow and at most cuts the rest short. */
  lemma RStripKeepsArrow(name: string, rest: string)
    ensures var body := name + Arrow + rest;
      var r := RStrip(body, RStripChars);
      |name| + |Arrow| <= |r| && r == body[..|r|]
  {
    var body := name + Arrow + rest;
    RStripSpec(body, RStripChars);
    assert body[|name| + |Arrow| - 1] == ';';
  }

  /** An edge comment `<!-- a&#45;&gt;b -->`, with or without its line
      break, yields the sanitized name of its source `a`, provided `a` does
      not start with a stripped character or contain `&`. */
  lemma EdgeMarkerToken(name: string, rest: string)
    requires |name| > 0 && name[0] !in LStripChars && '&' !in name
    ensures Token(Marker + name + Arrow + rest) == Sanitize(name)
  {
    var body := name + Arrow + rest;
    assert Marker + name + Arrow + rest == Marker + body;
    assert body[0] == name[0];
    LStripMarker(body);
    RStripKeepsArrow(name, rest);
    var r := RStrip(body, RStripChars);
    var kept := r[|name| + |Arrow|..];
    assert r == name + Arrow + kept;
    FirstFieldName(name, kept);
  }

  /** Sanitizing works character by character, so it distributes over
      concatenation. */
  lemma SanitizeConcat(a: string, b: string)
    ensures Sanitize(a + b) == Sanitize(a) + Sanitize(b)
  {
    SanitizeAt(a + b);
    SanitizeAt(a);
    SanitizeAt(b);
    var l, r := Sanitize(a + b), Sanitize(a) + Sanitize(b);
    forall k | 0 <= k < |a + b| ensures l[k] == r[k] {
      if k < |a| {
        assert (a + b)[k] == a[k];
      } else {
        assert (a + b)[k] == b[k - |a|];
      }
    }
  }

  /** A node comment `<!-- a -->` read with its line break keeps the
      comment's end in its token: `rstrip(" -->")` stops at the newline. */
  lemma NodeMarkerToken(name: string)
    requires |name| > 0 && name[0] !in LStripChars && '&' !in name
    ensures Token(Marker + name + " -->\n") == Sanitize(name) + " -->\n"
  {
    var tail := " -->\n";
    var body := name + tail;
    assert Marker + name + tail == Marker + body;
    assert body[0] == name[0];
    assert body[|body| - 1] == '\n';
    LStripMarker(body);
    RStripKept(body);
    assert '&' !in body;
    FirstFieldNoArrow(body);
    SanitizeConcat(name, tail);
    SanitizeAt(tail);
    assert Sanitize(tail) == tail;
  }

  /** `lstrip("<!-- ")` removes exactly the marker from a line whose text
      after the marker does not start with a stripped character. */
  lemma LStripMarker(body: string)
    requires |body| > 0 && body[0] !in LStripChars
    ensures LStrip(Marker + body, LStripChars) == body
  {
    var s := Marker + body;
    var r := LStrip(s, LStripChars);
    LStripSpec(s, LStripChars);
    assert s[|Marker|] == body[0];
    assert forall k :: 0 <= k < |Marker| ==> s[k] in LStripChars;
    assert |s| - |r| == |Marker|;
    assert r == s[|Marker|..];
  }

  /** `rstrip(" -->")` leaves a text alone when its last character is not
      one it strips. */
  lemma RStripKept(s: string)
    requires |s| > 0 && s[|s| - 1] !in RStripChars
    ensures RStrip(s, RStripChars) == s
  {
    RStripSpec(s, RStripChars);
  }

  /** The second half of `add_svg_style`: one hover rule per token, in
      the order `order` in which the set is walked. */
  method HoverRules(tokens: set<string>) returns (rules: string, order: seq<string>)
    ensures NoDup(order) && Elems(order) == tokens
    ensures rules == Rules(order)
  {
    var rest := tokens;
    rules := "";
    order := [];
    while rest != {}
      invariant forall x :: x in tokens <==> x in order || x in rest
      invariant forall x :: x in order ==> x !in rest
      invariant NoDup(order)
      invariant rules == Rules(order)
      decreases |rest|
    {
      var t :| t in rest;
      NoDupSnoc(order, t);
      RulesSnoc(order, t);
      rules := rules + Rule(t);
      order := order + [t];
      rest := rest - {t};
    }
  }

  /** The first half of `add_svg_style`: the loop over the lines, which
      tags the line after every marker in place and collects the markers'
      tokens. It fails where the loop would read past the last line. */
  method TagLines(file: array<string>) returns (ok: bool, tokens: set<string>)
    modifies file
    ensures ok <==> Annotated(old(file[..])).Success?
    ensures ok ==> file[..] == Annotated(old(file[..])).value
    ensures ok ==> tokens == MarkerTokens(file[..])
  {
    ghost var lines := file[..];
    tokens := {};
    var i := 0;
    while i < file.Length
      invariant 0 <= i <= file.Length == |lines|
      invariant AnnotateUpTo(lines, i).Success?
      invariant file[..] == AnnotateUpTo(lines, i).value
      invariant tokens == TokensUpTo(file[..], i)
    {
      ghost var before := file[..];
      ghost var next := StepAt(before, i);
      assert AnnotateUpTo(lines, i + 1) == next;
      TokensUpToStep(before, i);
      if StartsWith(file[i], Marker) {
        var t := Token(file[i]);
        tokens := tokens + {t};
        if i + 1 == file.Length {
          assert next.Failure?;
          return false, tokens;
        }
        file[i + 1] := RewriteClass(file[i + 1], t);
        assert file[..] == next.value;
        TokensUpToFrame(before, file[..], i + 1);
      } else {
        assert next == Success(before);
      }
      i := i + 1;
    }
    ok := true;
  }

  /** `add_svg_style` on the lines of an SVG file. The loop rewrites a
      local copy of the list in place; `order` is the order in which the
      set of tokens is walked, which Python leaves unspecified. */
  method AddSvgStyle(lines: seq<string>) returns (r: Result<string>, order: seq<string>)
    ensures r.Failure? <==> |lines| > 0 && StartsWith(lines[|lines| - 1], Marker)
    ensures r.Failure? ==> r.error == IndexError
    ensures r.Success? ==> Annotated(lines).Success?
    ensures r.Success? ==> NoDup(order) && Elems(order) == MarkerTokens(Annotated(lines).value)
    ensures r.Success? ==>
      r.value == ReplaceAll(Flatten(Annotated(lines).value), SvgEnd, StyleSheet(order))
  {
    var file := new string[|lines|](k requires 0 <= k < |lines| => lines[k]);
    assert file[..] == lines;
    AnnotateUpToFails(lines, |lines|);
    var ok, tokens := TagLines(file);
    if !ok {
      return Failure(IndexError), [];
    }
    var rules;
    rules, order := HoverRules(tokens);
    var style := StyleSheet(order);
    r := Success(ReplaceAll(Flatten(file[..]), SvgEnd, style));
  }
}
