/** The clean-up the infographic route applies to the model's Mermaid
    mind-map reply (src/app/api/infographic/route.ts:141-174): the code
    fences are deleted, the quotes around leaf labels are stripped, the
    blanks at line ends are deleted, and every line after the first is
    re-indented to an even number of spaces. Both the code as written and
    the corrected clean-up are here; the route uses the corrected one. */
module MermaidCleanup {
  import opened Wrappers
  import opened JsStrings
  import opened SeqUtil

  const FENCE: string := "```"
  const MERMAID_FENCE: string := "```mermaid"
  const YAML_FENCE: string := "```yaml"

  // ---------------------------------------------------------------------
  // code fences

  /** No three back-ticks in a row anywhere in `s`. */
  predicate FenceFree(s: string)
    decreases |s|
  {
    |s| < 3 || (!StartsWith(s, FENCE) && FenceFree(s[1..]))
  }

  /** A reply wrapped in a code fence with the language tag `tag`. */
  function Fenced(tag: string, body: string): string {
    FENCE + tag + "\n" + body + "\n" + FENCE
  }

  /** The ways the fenced reply splits up. */
  lemma FencedShapes(tag: string, body: string)
    ensures Fenced(tag, body) == FENCE + (tag + "\n" + body + "\n" + FENCE)
    ensures Fenced(tag, body) == (FENCE + tag) + ("\n" + body + "\n" + FENCE)
    ensures tag + "\n" + body + "\n" + FENCE == (tag + "\n" + body + "\n") + FENCE
    ensures ("\n" + body + "\n" + FENCE)[1..] == (body + "\n") + FENCE
    ensures (tag + "\n" + body + "\n" + FENCE)[0] == if tag == [] then '\n' else tag[0]
  {
  }

  /** A back-tick in front of two more makes a fence. */
  lemma BacktickExtends(c: char, t: string)
    ensures c == '`' && StartsWith(t, "``") ==> StartsWith([c] + t, FENCE)
    ensures |t| >= 2 && t[0] == '`' && t[1] == '`' ==> StartsWith(t, "``")
  {
    if c == '`' && StartsWith(t, "``") {
      assert ([c] + t)[..3] == [c] + t[..2];
    }
    if |t| >= 2 && t[0] == '`' && t[1] == '`' {
      assert t[..2] == "``";
    }
  }

  /** After the plain-fence pass no fence is left: a deletion cannot join
      back-ticks on both sides of it into a new fence, because it always
      removes a whole run of three. */
  lemma {:induction false} PlainPassLeavesNoFence(s: string)
    ensures FenceFree(DeleteAll(s, FENCE))
    decreases |s|
  {
    if s != [] {
      if StartsWith(s, FENCE) {
        var rest := s[3..];
        PlainPassLeavesNoFence(if rest != [] && rest[0] == '\n' then rest[1..] else rest);
      } else {
        var t := s[1..];
        PlainPassLeavesNoFence(t);
        var r := DeleteAll(t, FENCE);
        var out := [s[0]] + r;
        assert DeleteAll(s, FENCE) == out;
        assert out[1..] == r;
        assert s == [s[0]] + t;
        BacktickExtends(s[0], t);
        if t != [] && !StartsWith(t, FENCE) {
          var u := t[1..];
          assert r == [t[0]] + DeleteAll(u, FENCE);
          assert t == [t[0]] + u;
          BacktickExtends(t[0], u);
          BacktickExtends(' ', t);
          if u != [] && !StartsWith(u, FENCE) {
            assert DeleteAll(u, FENCE) == [u[0]] + DeleteAll(u[1..], FENCE);
          }
        }
      }
    }
  }

  /** A pass for a fence with a tag finds nothing in a fence-free string. */
  lemma {:induction false} TaggedPassOnFenceFree(s: string, pat: string)
    requires |pat| >= 3 && pat[..3] == FENCE
    requires FenceFree(s)
    ensures DeleteAll(s, pat) == s
    decreases |s|
  {
    if s != [] {
      if |s| >= 3 {
        if |pat| <= |s| {
          assert s[..|pat|][..3] == s[..3];
        }
      }
      TaggedPassOnFenceFree(s[1..], pat);
    }
  }

  /** A prefix at none of whose positions the pattern starts passes through
      the deletion unchanged. */
  lemma {:induction false} DeleteKeepsPrefix(p: string, t: string, pat: string)
    requires pat != []
    requires forall i :: 0 <= i < |p| ==> !StartsWith((p + t)[i..], pat)
    ensures DeleteAll(p + t, pat) == p + DeleteAll(t, pat)
    decreases |p|
  {
    if p == [] {
      assert p + t == t;
    } else {
      var s := p + t;
      assert s[0..] == s;
      assert s[1..] == p[1..] + t;
      forall i | 0 <= i < |p[1..]|
        ensures !StartsWith((p[1..] + t)[i..], pat)
      {
        assert (p[1..] + t)[i..] == s[i + 1..];
      }
      DeleteKeepsPrefix(p[1..], t, pat);
    }
  }

  /** A pattern that starts with a back-tick starts nowhere in a string
      without one. */
  lemma DeletePlain(p: string, t: string, pat: string)
    requires pat != [] && pat[0] == '`' && '`' !in p
    ensures DeleteAll(p + t, pat) == p + DeleteAll(t, pat)
  {
    forall i | 0 <= i < |p|
      ensures !StartsWith((p + t)[i..], pat)
    {
      assert (p + t)[i..][0] == p[i];
    }
    DeleteKeepsPrefix(p, t, pat);
  }

  /** A string shorter than the pattern is left alone. */
  lemma {:induction false} DeleteShort(s: string, pat: string)
    requires pat != [] && |s| < |pat|
    ensures DeleteAll(s, pat) == s
    decreases |s|
  {
    if s != [] {
      DeleteShort(s[1..], pat);
    }
  }

  /** An occurrence of the pattern at the front goes, with one line feed
      after it. */
  lemma DeleteAtFront(pat: string, x: string)
    requires pat != []
    ensures DeleteAll(pat + x, pat) == DeleteAll(if x != [] && x[0] == '\n' then x[1..] else x, pat)
  {
    var s := pat + x;
    assert s[..|pat|] == pat;
    assert s[|pat|..] == x;
  }

  /** The three back-ticks that open a fence are skipped by a pass whose
      pattern does not start there, when no back-tick follows them. */
  lemma SkipOpeningTicks(y: string, pat: string)
    requires |pat| >= 3 && pat[..3] == FENCE
    requires y != [] && y[0] != '`' && !StartsWith(FENCE + y, pat)
    ensures DeleteAll(FENCE + y, pat) == FENCE + DeleteAll(y, pat)
  {
    var s := FENCE + y;
    forall i | 0 <= i < |FENCE|
      ensures !StartsWith((FENCE + y)[i..], pat)
    {
      if i > 0 {
        assert (FENCE + y)[i..][3 - i] == y[0];
        assert pat[3 - i] == '`';
      }
    }
    DeleteKeepsPrefix(FENCE, y, pat);
  }

  /** A fence whose tag differs from the pattern's passes through it. */
  lemma FenceUntouched(tag: string, body: string, pat: string)
    requires '`' !in tag && '`' !in body
    requires |pat| > 3 && pat[..3] == FENCE
    requires !StartsWith(Fenced(tag, body), pat)
    ensures DeleteAll(Fenced(tag, body), pat) == Fenced(tag, body)
  {
    var p := tag + "\n" + body + "\n";
    var y := tag + "\n" + body + "\n" + FENCE;
    FencedShapes(tag, body);
    NoTicksInside(tag, body);
    SkipOpeningTicks(y, pat);
    DeletePlain(p, FENCE, pat);
    DeleteShort(FENCE, pat);
    assert DeleteAll(y, pat) == y;
  }

  /** The lines of a fence between its back-ticks hold none. */
  lemma NoTicksInside(tag: string, body: string)
    requires '`' !in tag && '`' !in body
    ensures '`' !in tag + "\n" + body + "\n"
    ensures '`' !in body + "\n"
  {
    var nl := "\n";
    assert '`' !in nl;
  }

  /** A fence whose tag is the pattern's loses its opening line. */
  lemma FenceOpened(tag: string, body: string)
    requires '`' !in tag && '`' !in body
    ensures DeleteAll(Fenced(tag, body), FENCE + tag) ==
      body + "\n" + (if tag == "" then "" else FENCE)
  {
    var pat := FENCE + tag;
    var x := "\n" + body + "\n" + FENCE;
    FencedShapes(tag, body);
    DeleteAtFront(pat, x);
    DeletePlain(body + "\n", FENCE, pat);
    if tag == "" {
      assert FENCE == pat + [];
      DeleteAtFront(pat, []);
    } else {
      DeleteShort(FENCE, pat);
    }
  }

  /** What is left of a fence once its opening line is gone. */
  lemma FenceClosed(body: string, closing: string)
    requires '`' !in body
    requires closing == "" || closing == FENCE
    ensures DeleteAll(body + "\n" + closing, FENCE) == body + "\n"
  {
    DeletePlain(body + "\n", closing, FENCE);
    if closing == FENCE {
      assert FENCE == FENCE + [];
      DeleteAtFront(FENCE, []);
    }
  }

  /** The fence passes and the trim as written: the `mermaid` fences, the
      plain fences, then the `yaml` fences. */
  function StripFencesAsWritten(s: string): string {
    Trim(DeleteAll(DeleteAll(DeleteAll(s, MERMAID_FENCE), FENCE), YAML_FENCE))
  }

  /** The `yaml` pass as written never deletes anything: the plain pass
      before it has already taken every ```` ``` ````. */
  lemma YamlPassIsDead(s: string)
    ensures StripFencesAsWritten(s) == Trim(DeleteAll(DeleteAll(s, MERMAID_FENCE), FENCE))
  {
    var t := DeleteAll(DeleteAll(s, MERMAID_FENCE), FENCE);
    PlainPassLeavesNoFence(DeleteAll(s, MERMAID_FENCE));
    TaggedPassOnFenceFree(t, YAML_FENCE);
  }

  /** As written, a reply fenced with any tag but `mermaid` keeps its tag
      as its first line: only the three back-ticks around it go. */
  lemma TagSurvivesAsWritten(tag: string, body: string)
    requires '`' !in tag && '`' !in body && tag != [] && tag[0] != '\n'
    requires !StartsWith(Fenced(tag, body), MERMAID_FENCE)
    ensures StripFencesAsWritten(Fenced(tag, body)) == Trim(tag + "\n" + body)
  {
    var x := tag + "\n" + body + "\n" + FENCE;
    var p := tag + "\n" + body + "\n";
    FencedShapes(tag, body);
    NoTicksInside(tag, body);
    FenceUntouched(tag, body, MERMAID_FENCE);
    DeleteAtFront(FENCE, x);
    DeletePlain(p, FENCE, FENCE);
    assert FENCE == FENCE + [];
    DeleteAtFront(FENCE, []);
    DeletePlain(p, [], YAML_FENCE);
    assert p + [] == (tag + "\n" + body) + ['\n'];
    TrimIgnoresTrailingSpace(tag + "\n" + body, '\n');
  }

  /** A fence whose tag does not start with `m` is no `mermaid` fence. */
  lemma NotMermaidTag(tag: string, body: string)
    requires tag != [] && tag[0] != 'm'
    ensures !StartsWith(Fenced(tag, body), MERMAID_FENCE)
  {
    FencedShapes(tag, body);
    var s := Fenced(tag, body);
    assert s[3] == tag[0];
    assert MERMAID_FENCE[3] == 'm';
    if |MERMAID_FENCE| <= |s| {
      assert s[..|MERMAID_FENCE|][3] == s[3];
    }
  }

  /** The fence passes in an order in which each can match: the tagged
      fences first, then the plain ones. */
  function StripFences(s: string): (r: string)
    ensures IsTrimmed(r)
  {
    Trim(DeleteAll(DeleteAll(DeleteAll(s, YAML_FENCE), MERMAID_FENCE), FENCE))
  }

  /** The passes on a `yaml` fence: the first takes the opening line,
      the second nothing, the third the closing fence. */
  lemma YamlFencePasses(body: string)
    requires '`' !in body
    ensures DeleteAll(DeleteAll(DeleteAll(Fenced("yaml", body), YAML_FENCE), MERMAID_FENCE), FENCE) == body + "\n"
  {
    assert FENCE + "yaml" == YAML_FENCE;
    FenceOpened("yaml", body);
    DeletePlain(body + "\n", FENCE, MERMAID_FENCE);
    DeleteShort(FENCE, MERMAID_FENCE);
    FenceClosed(body, FENCE);
  }

  /** The passes on a `mermaid` fence: the first finds nothing, the
      second takes the opening line, the third the closing fence. */
  lemma MermaidFencePasses(body: string)
    requires '`' !in body
    ensures DeleteAll(DeleteAll(DeleteAll(Fenced("mermaid", body), YAML_FENCE), MERMAID_FENCE), FENCE) == body + "\n"
  {
    assert Fenced("mermaid", body)[3] == 'm' by {
      FencedShapes("mermaid", body);
    }
    FenceUntouched("mermaid", body, YAML_FENCE);
    assert FENCE + "mermaid" == MERMAID_FENCE;
    FenceOpened("mermaid", body);
    FenceClosed(body, FENCE);
  }

  /** The passes on a plain fence: the tagged passes find nothing, the
      plain pass takes both fences. */
  lemma PlainFencePasses(body: string)
    requires '`' !in body
    ensures DeleteAll(DeleteAll(DeleteAll(Fenced("", body), YAML_FENCE), MERMAID_FENCE), FENCE) == body + "\n"
  {
    assert Fenced("", body)[3] == '\n' by {
      FencedShapes("", body);
    }
    FenceUntouched("", body, YAML_FENCE);
    FenceUntouched("", body, MERMAID_FENCE);
    assert FENCE + "" == FENCE;
    FenceOpened("", body);
    FenceClosed(body, "");
  }

  /** Corrected, a reply fenced as plain, `mermaid` or `yaml` comes out as
      its body, trimmed. */
  lemma FencedReplyIsUnwrapped(tag: string, body: string)
    requires tag == "" || tag == "mermaid" || tag == "yaml"
    requires '`' !in body
    ensures StripFences(Fenced(tag, body)) == Trim(body)
  {
    if tag == "yaml" {
      YamlFencePasses(body);
    } else if tag == "mermaid" {
      MermaidFencePasses(body);
    } else {
      PlainFencePasses(body);
    }
    assert body + "\n" == body + ['\n'];
    TrimIgnoresTrailingSpace(body, '\n');
  }

  /** The reply that shows the difference. */
  lemma YamlFenceExample(reply: string)
    requires reply == Fenced("yaml", "mindmap")
    ensures StripFencesAsWritten(reply) == "yaml\nmindmap"
    ensures StripFences(reply) == "mindmap"
  {
    NotMermaidTag("yaml", "mindmap");
    TagSurvivesAsWritten("yaml", "mindmap");
    FencedReplyIsUnwrapped("yaml", "mindmap");
    TrimmedExample("yaml" + "\n" + "mindmap");
    TrimmedExample("mindmap");
  }

  lemma TrimmedExample(w: string)
    requires w == "yaml" + "\n" + "mindmap" || w == "mindmap"
    ensures Trim(w) == w
    ensures w == "yaml\nmindmap" || w == "mindmap"
  {
    assert w[0] != ' ' && w[|w| - 1] == 'p';
    TrimOfTrimmed(w);
  }

  // ---------------------------------------------------------------------
  // replace(/[ \t]+$/gm, '')

  predicate IsBlank(c: char) {
    c == ' ' || c == '\t'
  }

  /** Only blanks from here up to the next line terminator or the end. */
  predicate BlanksToLineEnd(s: string)
    decreases |s|
  {
    s == [] || IsLineTerminator(s[0]) || (IsBlank(s[0]) && BlanksToLineEnd(s[1..]))
  }

  /** `s.replace(/[ \t]+$/gm, '')`: a blank goes when only blanks follow it
      up to a line terminator or the end, that is, when it is part of a run
      of blanks that ends a line. */
  function StripTrailingBlanks(s: string): string
    decreases |s|
  {
    if s == [] then []
    else (if IsBlank(s[0]) && BlanksToLineEnd(s[1..]) then [] else [s[0]]) + StripTrailingBlanks(s[1..])
  }

  /** No line of `s` ends in a blank. */
  predicate NoTrailingBlanks(s: string)
    decreases |s|
  {
    s == [] || ((IsBlank(s[0]) ==> !BlanksToLineEnd(s[1..])) && NoTrailingBlanks(s[1..]))
  }

  /** The deletion never makes a line end in blanks that did not already:
      what it keeps in front of a non-blank character stays in front of it. */
  lemma {:induction false} StripKeepsLineEnds(t: string)
    ensures BlanksToLineEnd(StripTrailingBlanks(t)) ==> BlanksToLineEnd(t)
    decreases |t|
  {
    if t != [] && IsBlank(t[0]) && !BlanksToLineEnd(t[1..]) {
      var r := StripTrailingBlanks(t[1..]);
      StripKeepsLineEnds(t[1..]);
      assert StripTrailingBlanks(t) == [t[0]] + r;
      assert ([t[0]] + r)[1..] == r;
    } else if t != [] && !IsBlank(t[0]) && !IsLineTerminator(t[0]) {
      assert StripTrailingBlanks(t)[0] == t[0];
    }
  }

  /** After the deletion no line ends in a blank. */
  lemma {:induction false} StrippedHasNoTrailingBlanks(s: string)
    ensures NoTrailingBlanks(StripTrailingBlanks(s))
    decreases |s|
  {
    if s != [] {
      var r := StripTrailingBlanks(s[1..]);
      StrippedHasNoTrailingBlanks(s[1..]);
      if !(IsBlank(s[0]) && BlanksToLineEnd(s[1..])) {
        StripKeepsLineEnds(s[1..]);
        assert StripTrailingBlanks(s) == [s[0]] + r;
        assert ([s[0]] + r)[1..] == r;
      } else {
        assert StripTrailingBlanks(s) == r;
      }
    }
  }

  /** A string with no trailing blanks is left as it is. */
  lemma {:induction false} StripOfClean(s: string)
    requires NoTrailingBlanks(s)
    ensures StripTrailingBlanks(s) == s
    decreases |s|
  {
    if s != [] {
      StripOfClean(s[1..]);
      assert s == [s[0]] + s[1..];
    }
  }

  /** Deleting trailing blanks twice deletes nothing more. */
  lemma StripIdempotent(s: string)
    ensures StripTrailingBlanks(StripTrailingBlanks(s)) == StripTrailingBlanks(s)
  {
    StrippedHasNoTrailingBlanks(s);
    StripOfClean(StripTrailingBlanks(s));
  }

  /** Only blanks go: the rest keeps its order, and every other character
      keeps its count, line feeds included, so the lines stay the lines. */
  lemma {:induction false} StripDeletesOnlyBlanks(s: string)
    ensures IsSubsequence(StripTrailingBlanks(s), s)
    ensures forall c :: !IsBlank(c) ==> multiset(StripTrailingBlanks(s))[c] == multiset(s)[c]
    decreases |s|
  {
    if s == [] {
      SubsequenceReflexive(s);
    } else {
      var r := StripTrailingBlanks(s[1..]);
      StripDeletesOnlyBlanks(s[1..]);
      assert s == [s[0]] + s[1..];
      assert multiset(s) == multiset([s[0]]) + multiset(s[1..]);
      SubsequenceOfPrepend(s[0], r, s[1..]);
      if !(IsBlank(s[0]) && BlanksToLineEnd(s[1..])) {
        assert StripTrailingBlanks(s) == [s[0]] + r;
        assert multiset([s[0]] + r) == multiset([s[0]]) + multiset(r);
      } else {
        assert StripTrailingBlanks(s) == r;
      }
    }
  }

  // ---------------------------------------------------------------------
  // re-indentation of the lines after the first

  /** `line.search(/\S/)`: where the first character that is not white
      space is, or -1 when there is none. */
  function Indent(line: string): (n: int)
    ensures -1 <= n < |line|
    ensures n == -1 <==> forall k :: 0 <= k < |line| ==> IsSpace(line[k])
    ensures 0 <= n ==> !IsSpace(line[n]) && forall k :: 0 <= k < n ==> IsSpace(line[k])
  {
    var t := TrimStart(line);
    if t == [] then -1 else |line| - |t|
  }

  /** `' '.repeat(n)` for a count that is not negative. */
  function Spaces(n: nat): (r: string)
    ensures |r| == n && forall k :: 0 <= k < n ==> r[k] == ' '
  {
    seq(n, _ => ' ')
  }

  /** The lines put at the root's indentation:
      `line.trim().startsWith('root') || line.includes('((')`. */
  predicate IsRootLine(line: string) {
    StartsWith(Trim(line), "root") || Includes(line, "((")
  }

  /** `Math.floor(indent / 2) * 2`: Dafny's division by 2 rounds down as
      `Math.floor` does, at -1 too, where it gives -2. */
  function EvenIndent(indent: int): int {
    (indent / 2) * 2
  }

  /** One line after the first, as written: `None` where `' '.repeat`
      throws a `RangeError` on a negative count. */
  function FixLineAsWritten(line: string): Option<string> {
    if IsRootLine(line) then Some("  " + Trim(line))
    else if EvenIndent(Indent(line)) < 0 then None
    else Some(Spaces(EvenIndent(Indent(line))) + Trim(line))
  }

  /** One line after the first, corrected: a count below zero is taken as
      zero, so a line of nothing but white space comes out empty. */
  function FixLine(line: string): string {
    if IsRootLine(line) then "  " + Trim(line)
    else
      var n := EvenIndent(Indent(line));
      Spaces(if n < 0 then 0 else n) + Trim(line)
  }

  /** A line that is all white space is no root line. */
  lemma BlankIsNoRoot(line: string)
    requires forall k :: 0 <= k < |line| ==> IsSpace(line[k])
    ensures !IsRootLine(line)
  {
    IncludesIff(line, "((");
    forall i | 0 <= i <= |line|
      ensures !StartsWith(line[i..], "((")
    {
      if i + 2 <= |line| {
        assert line[i..][0] == line[i];
      }
    }
  }

  /** As written, a line throws exactly when it is all white space. */
  lemma FixLineFailsOnBlank(line: string)
    ensures FixLineAsWritten(line).None? <==> forall k :: 0 <= k < |line| ==> IsSpace(line[k])
  {
    var n := Indent(line);
    if n < 0 {
      BlankIsNoRoot(line);
      assert EvenIndent(n) == -2;
    } else {
      EvenIndentBounds(n);
      assert !IsSpace(line[n]);
    }
  }

  /** Where the code as written does not throw, it gives what the corrected
      code gives. */
  lemma FixLineAgrees(line: string)
    ensures FixLineAsWritten(line).Some? ==> FixLineAsWritten(line) == Some(FixLine(line))
  {
  }

  /** Where the characters of a text stand behind spaces. */
  lemma PaddedChars(n: nat, t: string)
    ensures t != [] ==> (Spaces(n) + t)[|Spaces(n) + t| - 1] == t[|t| - 1]
    ensures t == [] ==> Spaces(n) + t == Spaces(n)
    ensures '\n' !in t ==> '\n' !in Spaces(n) + t
  {
    var f := Spaces(n) + t;
    if t != [] {
      assert f[n + |t| - 1] == t[|t| - 1];
    }
    assert '\n' !in Spaces(n);
  }

  /** Spaces in front of a trimmed text: trimming gives back the text, and
      the text starts after the spaces. */
  lemma PaddedShape(n: nat, t: string)
    requires IsTrimmed(t)
    ensures Trim(Spaces(n) + t) == t
    ensures t != [] ==> Indent(Spaces(n) + t) == n
  {
    var sp := Spaces(n);
    assert TrimStart(sp) == [];
    TrimStartAppend(sp, t);
    assert TrimStart(t) == t;
    TrimOfTrimmed(t);
  }

  /** The rounding keeps a count that is not negative even, not negative,
      and at most one below it. */
  lemma EvenIndentBounds(x: int)
    requires x >= 0
    ensures 0 <= EvenIndent(x) <= x <= EvenIndent(x) + 1 && EvenIndent(x) % 2 == 0
  {
    var q := x / 2;
    assert x == 2 * q + x % 2;
  }

  /** A root line is its text behind two spaces. */
  lemma RootLineShape(line: string)
    requires IsRootLine(line)
    ensures FixLine(line) == Spaces(2) + Trim(line) && Trim(line) != []
  {
    if forall k :: 0 <= k < |line| ==> IsSpace(line[k]) {
      BlankIsNoRoot(line);
    }
    assert "  " == Spaces(2);
  }

  /** Any other line is its text behind the rounded count of spaces. */
  lemma OtherLineShape(line: string) returns (m: nat)
    requires !IsRootLine(line)
    ensures FixLine(line) == Spaces(m) + Trim(line)
    ensures Indent(line) < 0 ==> m == 0 && Trim(line) == []
    ensures Indent(line) >= 0 ==> Trim(line) != [] && m % 2 == 0 && m <= Indent(line) <= m + 1
  {
    var n := EvenIndent(Indent(line));
    m := if n < 0 then 0 else n;
    if Indent(line) >= 0 {
      EvenIndentBounds(Indent(line));
      assert !IsSpace(line[Indent(line)]);
    }
  }

  /** A re-indented line keeps its text. */
  lemma FixLineKeepsText(line: string)
    ensures Trim(FixLine(line)) == Trim(line)
  {
    var m := LineShape(line);
    PaddedShape(m, Trim(line));
  }

  /** A re-indented line does not end in white space. */
  lemma FixLineEndsInText(line: string)
    ensures FixLine(line) == [] || !IsSpace(FixLine(line)[|FixLine(line)| - 1])
  {
    var m := LineShape(line);
    PaddedChars(m, Trim(line));
  }

  /** A root line is indented by two. */
  lemma RootLineIndent(line: string)
    requires IsRootLine(line)
    ensures Indent(FixLine(line)) == 2
  {
    RootLineShape(line);
    PaddedShape(2, Trim(line));
  }

  /** Any other line is indented by an even count, at most one less than
      before. */
  lemma OtherLineIndent(line: string)
    requires !IsRootLine(line) && Indent(line) >= 0
    ensures Indent(FixLine(line)) % 2 == 0 && Indent(line) - 1 <= Indent(FixLine(line)) <= Indent(line)
  {
    var m := OtherLineShape(line);
    PaddedShape(m, Trim(line));
  }

  /** A line of white space becomes empty. */
  lemma BlankLineFixed(line: string)
    requires Indent(line) < 0
    ensures FixLine(line) == []
  {
    BlankIsNoRoot(line);
    var m := OtherLineShape(line);
    PaddedChars(m, Trim(line));
  }

  /** Either way a line is its text behind some spaces, none when it has no
      text. */
  lemma LineShape(line: string) returns (m: nat)
    ensures FixLine(line) == Spaces(m) + Trim(line)
    ensures Trim(line) == [] ==> m == 0
  {
    if IsRootLine(line) {
      RootLineShape(line);
      m := 2;
    } else {
      m := OtherLineShape(line);
    }
  }

  /** The lines after the first, each re-indented as written; `None` once
      one throws. */
  function FixLinesAsWritten(lines: seq<string>): Option<seq<string>> {
    if lines == [] then Some([])
    else
      match (FixLineAsWritten(lines[0]), FixLinesAsWritten(lines[1..]))
      case (Some(line), Some(rest)) => Some([line] + rest)
      case _ => None
  }

  /** The lines after the first, each re-indented by `FixLine`. */
  function FixLines(lines: seq<string>): (r: seq<string>)
    ensures |r| == |lines| && forall i :: 0 <= i < |lines| ==> r[i] == FixLine(lines[i])
  {
    if lines == [] then [] else [FixLine(lines[0])] + FixLines(lines[1..])
  }

  /** Some line is all white space: `search` finds nothing in it. */
  predicate HasBlankLine(lines: seq<string>) {
    lines != [] && (Indent(lines[0]) < 0 || HasBlankLine(lines[1..]))
  }

  /** `HasBlankLine` says that some line has no indent at all. */
  lemma {:induction false} HasBlankLineIff(lines: seq<string>)
    ensures HasBlankLine(lines) <==> exists i :: 0 <= i < |lines| && Indent(lines[i]) < 0
    decreases |lines|
  {
    if lines != [] {
      HasBlankLineIff(lines[1..]);
      if exists i :: 1 <= i < |lines| && Indent(lines[i]) < 0 {
        var i :| 1 <= i < |lines| && Indent(lines[i]) < 0;
        assert lines[1..][i - 1] == lines[i];
      }
      if exists i :: 0 <= i < |lines[1..]| && Indent(lines[1..][i]) < 0 {
        var i :| 0 <= i < |lines[1..]| && Indent(lines[1..][i]) < 0;
        assert lines[i + 1] == lines[1..][i];
      }
    }
  }

  /** As written, the lines fail exactly when one of them is all white
      space, and otherwise agree with the corrected ones. */
  lemma {:induction false} FixLinesAgree(lines: seq<string>)
    ensures FixLinesAsWritten(lines).None? <==> HasBlankLine(lines)
    ensures FixLinesAsWritten(lines).Some? ==> FixLinesAsWritten(lines) == Some(FixLines(lines))
    decreases |lines|
  {
    if lines != [] {
      FixLinesAgree(lines[1..]);
      FixLineFailsOnBlank(lines[0]);
      FixLineAgrees(lines[0]);
    }
  }

  /** `code.split('\n').map(...).join('\n')` as written: the first line
      as it is, the others re-indented; `None` is the `RangeError`. */
  function ReindentAsWritten(code: string): Option<string> {
    var lines := Split(code, '\n');
    match FixLinesAsWritten(lines[1..])
    case None => None
    case Some(rest) => Some(Join([lines[0]] + rest, '\n'))
  }

  /** The corrected re-indentation. */
  function Reindent(code: string): string {
    var lines := Split(code, '\n');
    Join([lines[0]] + FixLines(lines[1..]), '\n')
  }

  /** As written, the re-indentation throws exactly when a line after the
      first is all white space (an empty line, say), and otherwise gives
      what the corrected one gives. */
  lemma ReindentAgrees(code: string)
    ensures ReindentAsWritten(code).None? <==> HasBlankLine(Split(code, '\n')[1..])
    ensures ReindentAsWritten(code).Some? ==> ReindentAsWritten(code) == Some(Reindent(code))
  {
    FixLinesAgree(Split(code, '\n')[1..]);
  }

  /** A re-indented line holds no line feed when the line did not. */
  lemma FixLineOneLine(line: string)
    requires '\n' !in line
    ensures '\n' !in FixLine(line)
  {
    var lead := TrimIsInfix(line);
    var t := Trim(line);
    var m := LineShape(line);
    assert t == line[lead..lead + |t|];
    PaddedChars(m, t);
  }

  /** The corrected output, split at line feeds, is the input's first line
      followed by the others re-indented. */
  lemma ReindentLines(code: string)
    ensures Split(Reindent(code), '\n') == [Split(code, '\n')[0]] + FixLines(Split(code, '\n')[1..])
  {
    var lines := Split(code, '\n');
    var out := [lines[0]] + FixLines(lines[1..]);
    forall i | 0 <= i < |out|
      ensures '\n' !in out[i]
    {
      if i > 0 {
        FixLineOneLine(lines[i]);
      }
    }
    SplitJoin(out, '\n');
  }

  /** The input that shows the difference: a diagram with an empty line
      between two others. As written it throws; corrected, the empty line
      stays empty. */
  lemma EmptyLineExample(first: string, last: string)
    requires '\n' !in first && '\n' !in last
    ensures ReindentAsWritten(Join([first, "", last], '\n')) == None
    ensures Split(Reindent(Join([first, "", last], '\n')), '\n')[1] == ""
  {
    var lines := [first, "", last];
    var code := Join(lines, '\n');
    SplitJoin(lines, '\n');
    assert Indent(lines[1]) == -1;
    ReindentAgrees(code);
    ReindentLines(code);
    BlankLineFixed(lines[1]);
  }

  // ---------------------------------------------------------------------
  // the whole clean-up

  /** What the route makes of the model's trimmed reply, as written;
      `unquote` stands for the two quote-stripping passes, and `None` is
      the `RangeError` the re-indentation throws. */
  function CleanupAsWritten(reply: string, unquote: string -> string): Option<string> {
    ReindentAsWritten(StripTrailingBlanks(unquote(StripFencesAsWritten(reply))))
  }

  /** The corrected clean-up, which the route model uses. */
  function Cleanup(reply: string, unquote: string -> string): string {
    Reindent(StripTrailingBlanks(unquote(StripFences(reply))))
  }

  /** The corrected clean-up's lines: the first as the fence and quote
      passes left it less its trailing blanks, each other one re-indented;
      where the code as written does not throw and its fence passes give
      what the corrected ones give, both agree. */
  lemma CleanupShape(reply: string, unquote: string -> string)
    ensures var lines := Split(StripTrailingBlanks(unquote(StripFences(reply))), '\n');
      Split(Cleanup(reply, unquote), '\n') == [lines[0]] + FixLines(lines[1..])
    ensures StripFencesAsWritten(reply) == StripFences(reply) && CleanupAsWritten(reply, unquote).Some? ==>
      CleanupAsWritten(reply, unquote) == Some(Cleanup(reply, unquote))
  {
    ReindentLines(StripTrailingBlanks(unquote(StripFences(reply))));
    ReindentAgrees(StripTrailingBlanks(unquote(StripFencesAsWritten(reply))));
  }
}
