/** The JavaScript string built-ins the portal relies on, on `seq<char>`:
    `\s` and `trim`, `replace(/\s+/g, ' ')`, ASCII `toLowerCase`, `includes`,
    `startsWith`, `split`/`join` on one character, `slice`, `padStart`,
    `String(n)`, `parseInt` and the literal-pattern `replace(/p\n?/g, '')`. */
module JsStrings {
  import opened Wrappers

  /** ECMAScript WhiteSpace and LineTerminator code points: the set matched by
      `\s` and removed by `trim`. */
  predicate IsSpace(c: char) {
    || c == '\t' || c == '\n' || c == '\U{000B}' || c == '\U{000C}' || c == '\r'
    || c == ' ' || c == '\U{00A0}' || c == '\U{1680}'
    || ('\U{2000}' <= c <= '\U{200A}')
    || c == '\U{2028}' || c == '\U{2029}' || c == '\U{202F}' || c == '\U{205F}'
    || c == '\U{3000}' || c == '\U{FEFF}'
  }

  /** The code points before which `$` matches in a multiline regular expression. */
  predicate IsLineTerminator(c: char) {
    c == '\n' || c == '\r' || c == '\U{2028}' || c == '\U{2029}'
  }

  predicate IsDigit(c: char) {
    '0' <= c <= '9'
  }

  predicate AllDigits(s: string) {
    forall k :: 0 <= k < |s| ==> IsDigit(s[k])
  }

  // ---------------------------------------------------------------------
  // trim

  /** `s.trimStart()`: the longest suffix of `s` that does not start with white space. */
  function TrimStart(s: string): (r: string)
    ensures |r| <= |s| && r == s[|s| - |r|..]
    ensures forall k :: 0 <= k < |s| - |r| ==> IsSpace(s[k])
    ensures r == [] || !IsSpace(r[0])
  {
    if s != [] && IsSpace(s[0]) then TrimStart(s[1..]) else s
  }

  /** `s.trimEnd()`: the longest prefix of `s` that does not end with white space. */
  function TrimEnd(s: string): (r: string)
    ensures |r| <= |s| && r == s[..|r|]
    ensures forall k :: |r| <= k < |s| ==> IsSpace(s[k])
    ensures r == [] || !IsSpace(r[|r| - 1])
  {
    if s != [] && IsSpace(s[|s| - 1]) then TrimEnd(s[..|s| - 1]) else s
  }

  /** Neither end of `s` is white space. */
  predicate IsTrimmed(s: string) {
    s == [] || (!IsSpace(s[0]) && !IsSpace(s[|s| - 1]))
  }

  /** `s.trim()`: `s` without its leading and trailing white space. */
  function Trim(s: string): (r: string)
    ensures IsTrimmed(r)
    ensures |r| <= |s|
    ensures (forall k :: 0 <= k < |s| ==> IsSpace(s[k])) <==> r == []
    ensures exists i :: SpacedInfix(s, i, r)
  {
    var t := TrimStart(s);
    var r := TrimEnd(t);
    assert r != [] ==> r[0] == t[0];
    TrimStretch(s, t, r);
    r
  }

  /** `r` occurs in `s` at `i`, with only white space before and after it. */
  predicate SpacedInfix(s: string, i: int, r: string) {
    0 <= i <= |s| - |r| && r == s[i..i + |r|] &&
    (forall k :: 0 <= k < i ==> IsSpace(s[k])) && (forall k :: i + |r| <= k < |s| ==> IsSpace(s[k]))
  }

  /** A prefix `r` of a suffix `t` of `s`, with only white space cut off
      either side, is a stretch of `s` that only white space surrounds. */
  lemma TrimStretch(s: string, t: string, r: string)
    requires |t| <= |s| && t == s[|s| - |t|..]
    requires forall k :: 0 <= k < |s| - |t| ==> IsSpace(s[k])
    requires |r| <= |t| && r == t[..|r|]
    requires forall k :: |r| <= k < |t| ==> IsSpace(t[k])
    ensures SpacedInfix(s, |s| - |t|, r)
  {
    var lead := |s| - |t|;
    assert r == s[lead..lead + |r|];
    forall k | lead + |r| <= k < |s|
      ensures IsSpace(s[k])
    {
      assert s[k] == t[k - lead];
    }
  }

  /** `Trim(s)` is the stretch of `s` between its leading and trailing white space. */
  lemma TrimIsInfix(s: string) returns (lead: nat)
    ensures lead + |Trim(s)| <= |s| && Trim(s) == s[lead..lead + |Trim(s)|]
  {
    lead := |s| - |TrimStart(s)|;
  }

  lemma TrimOfTrimmed(s: string)
    requires IsTrimmed(s)
    ensures Trim(s) == s
  {
  }

  /** Leading white space in front of a string that starts with something
      else is what `trimStart` removes. */
  lemma {:induction false} TrimStartAppend(a: string, b: string)
    ensures TrimStart(a + b) == if TrimStart(a) == [] then TrimStart(b) else TrimStart(a) + b
    decreases |a|
  {
    if a != [] {
      var ab := a + b;
      assert ab[0] == a[0];
      if IsSpace(a[0]) {
        assert ab[1..] == a[1..] + b;
        assert TrimStart(ab) == TrimStart(a[1..] + b);
        assert TrimStart(a) == TrimStart(a[1..]);
        TrimStartAppend(a[1..], b);
      } else {
        assert TrimStart(ab) == ab;
        assert TrimStart(a) == a;
      }
    } else {
      assert a + b == b;
    }
  }

  /** One more white-space character at the end does not change `trim`. */
  lemma TrimIgnoresTrailingSpace(s: string, c: char)
    requires IsSpace(c)
    ensures Trim(s + [c]) == Trim(s)
  {
    TrimStartAppend(s, [c]);
    var t := TrimStart(s);
    if t != [] {
      assert (t + [c])[..|t + [c]| - 1] == t;
    }
  }

  // ---------------------------------------------------------------------
  // replace(/\s+/g, ' ')

  /** No white space other than the plain space. */
  predicate OnlyPlainSpaces(s: string) {
    forall k :: 0 <= k < |s| && IsSpace(s[k]) ==> s[k] == ' '
  }

  /** No two spaces in a row. */
  predicate NoDoubleSpace(s: string) {
    forall i, j :: 0 <= i < |s| && 0 <= j < |s| && j == i + 1 ==> !(s[i] == ' ' && s[j] == ' ')
  }

  /** The non-white-space characters of `s`, in order. */
  function Squeeze(s: string): string {
    if s == [] then []
    else (if IsSpace(s[0]) then [] else [s[0]]) + Squeeze(s[1..])
  }

  /** `s.replace(/\s+/g, ' ')`: every maximal run of white space becomes one space. */
  function CollapseSpaces(s: string): (r: string)
    ensures |r| <= |s|
    ensures (r == []) <==> (s == [])
    ensures s != [] ==> (IsSpace(r[0]) <==> IsSpace(s[0]))
    ensures OnlyPlainSpaces(r) && NoDoubleSpace(r)
    decreases |s|
  {
    if s == [] then []
    else if IsSpace(s[0]) then
      var rest := CollapseSpaces(TrimStart(s[1..]));
      PrependKeepsSpacing(' ', rest);
      " " + rest
    else
      var rest := CollapseSpaces(s[1..]);
      PrependKeepsSpacing(s[0], rest);
      [s[0]] + rest
  }

  /** A character in front of a plainly spaced string keeps it plainly
      spaced unless it is other white space or doubles a space. */
  lemma PrependKeepsSpacing(c: char, r: string)
    requires OnlyPlainSpaces(r) && NoDoubleSpace(r)
    requires IsSpace(c) ==> c == ' '
    requires c == ' ' && r != [] ==> r[0] != ' '
    ensures OnlyPlainSpaces([c] + r) && NoDoubleSpace([c] + r)
  {
    var t := [c] + r;
    forall k | 0 <= k < |t| && IsSpace(t[k]) ensures t[k] == ' ' {
      if k > 0 {
        assert t[k] == r[k - 1];
      }
    }
    forall i, j | 0 <= i < |t| && 0 <= j < |t| && j == i + 1 ensures !(t[i] == ' ' && t[j] == ' ') {
      if i > 0 {
        assert t[i] == r[i - 1] && t[j] == r[j - 1];
      }
    }
  }

  /** `s.replace(/\s+/g, ' ').trim()`, how both adapters clean titles and abstracts. */
  function NormalizeText(s: string): string {
    Trim(CollapseSpaces(s))
  }

  /** The shape `NormalizeText` produces: trimmed, plain single spaces. */
  predicate IsNormalText(s: string) {
    IsTrimmed(s) && OnlyPlainSpaces(s) && NoDoubleSpace(s)
  }

  lemma {:induction false} SqueezeAppend(a: string, b: string)
    ensures Squeeze(a + b) == Squeeze(a) + Squeeze(b)
    decreases |a|
  {
    if a == [] {
      assert a + b == b;
    } else {
      assert (a + b)[1..] == a[1..] + b;
      SqueezeAppend(a[1..], b);
    }
  }

  lemma {:induction false} SqueezeOfSpaces(s: string)
    requires forall k :: 0 <= k < |s| ==> IsSpace(s[k])
    ensures Squeeze(s) == []
    decreases |s|
  {
    if s != [] {
      SqueezeOfSpaces(s[1..]);
    }
  }

  lemma SqueezeTrimStart(s: string)
    ensures Squeeze(TrimStart(s)) == Squeeze(s)
  {
    var r := TrimStart(s);
    var lead := s[..|s| - |r|];
    assert s == lead + r;
    assert forall k :: 0 <= k < |lead| ==> IsSpace(lead[k]) by {
      forall k | 0 <= k < |lead| ensures IsSpace(lead[k]) {
        assert lead[k] == s[k];
      }
    }
    SqueezeOfSpaces(lead);
    SqueezeAppend(lead, r);
  }

  lemma SqueezeTrimEnd(t: string)
    ensures Squeeze(TrimEnd(t)) == Squeeze(t)
  {
    var r := TrimEnd(t);
    var tail := t[|r|..];
    assert t == r + tail;
    assert forall k :: 0 <= k < |tail| ==> IsSpace(tail[k]) by {
      forall k | 0 <= k < |tail| ensures IsSpace(tail[k]) {
        assert tail[k] == t[|r| + k];
      }
    }
    SqueezeOfSpaces(tail);
    SqueezeAppend(r, tail);
  }

  lemma SqueezeTrim(s: string)
    ensures Squeeze(Trim(s)) == Squeeze(s)
  {
    SqueezeTrimStart(s);
    SqueezeTrimEnd(TrimStart(s));
  }

  lemma {:induction false} SqueezeCollapse(s: string)
    ensures Squeeze(CollapseSpaces(s)) == Squeeze(s)
    decreases |s|
  {
    if s == [] {
    } else if IsSpace(s[0]) {
      var t := TrimStart(s[1..]);
      SqueezeCollapse(t);
      SqueezeTrimStart(s[1..]);
      SqueezeAppend(" ", CollapseSpaces(t));
    } else {
      SqueezeCollapse(s[1..]);
      SqueezeAppend([s[0]], CollapseSpaces(s[1..]));
    }
  }

  /** Any stretch of a string with plain single spaces has plain single spaces. */
  lemma InfixKeepsSpacing(c: string, a: nat, b: nat)
    requires a <= b <= |c| && OnlyPlainSpaces(c) && NoDoubleSpace(c)
    ensures OnlyPlainSpaces(c[a..b]) && NoDoubleSpace(c[a..b])
  {
    var r := c[a..b];
    forall k | 0 <= k < |r| && IsSpace(r[k]) ensures r[k] == ' ' {
      assert r[k] == c[a + k];
    }
    forall i, j | 0 <= i < |r| && 0 <= j < |r| && j == i + 1 ensures !(r[i] == ' ' && r[j] == ' ') {
      assert r[i] == c[a + i] && r[j] == c[a + j];
    }
  }

  /** Normalising text yields the normal shape and keeps every
      non-white-space character, in order. */
  lemma NormalizeTextShape(s: string)
    ensures IsNormalText(NormalizeText(s))
    ensures Squeeze(NormalizeText(s)) == Squeeze(s)
  {
    NormalizeTextIsNormal(s);
    SqueezeTrim(CollapseSpaces(s));
    SqueezeCollapse(s);
  }

  lemma NormalizeTextIsNormal(s: string)
    ensures IsNormalText(NormalizeText(s))
  {
    TrimKeepsSpacing(CollapseSpaces(s));
  }

  lemma TrimKeepsSpacing(c: string)
    requires OnlyPlainSpaces(c) && NoDoubleSpace(c)
    ensures OnlyPlainSpaces(Trim(c)) && NoDoubleSpace(Trim(c))
  {
    var lead := TrimIsInfix(c);
    InfixKeepsSpacing(c, lead, lead + |Trim(c)|);
  }

  lemma {:induction false} CollapseOfNormal(s: string)
    requires OnlyPlainSpaces(s) && NoDoubleSpace(s)
    ensures CollapseSpaces(s) == s
    decreases |s|
  {
    if s != [] {
      assert s == [s[0]] + s[1..];
      NormalTail(s);
      CollapseOfNormal(s[1..]);
      if IsSpace(s[0]) {
        TrimStartOfNormal(s[1..], s[0]);
        assert CollapseSpaces(s) == [s[0]] + CollapseSpaces(s[1..]);
      } else {
        assert CollapseSpaces(s) == [s[0]] + CollapseSpaces(s[1..]);
      }
    }
  }

  lemma TrimStartOfNormal(t: string, c: char)
    requires c == ' ' && OnlyPlainSpaces([c] + t) && NoDoubleSpace([c] + t)
    ensures TrimStart(t) == t
  {
    if t != [] {
      var u := [c] + t;
      assert u[0] == ' ' && u[1] == t[0];
      assert !IsSpace(t[0]);
    }
  }

  lemma NormalTail(s: string)
    requires s != [] && OnlyPlainSpaces(s) && NoDoubleSpace(s)
    ensures OnlyPlainSpaces(s[1..]) && NoDoubleSpace(s[1..])
  {
    forall i, j | 0 <= i < |s[1..]| && 0 <= j < |s[1..]| && j == i + 1 ensures !(s[1..][i] == ' ' && s[1..][j] == ' ') {
      assert s[1..][i] == s[i + 1] && s[1..][j] == s[j + 1];
    }
  }

  /** Cleaning text twice changes nothing more than cleaning it once. */
  lemma NormalizeTextIdempotent(s: string)
    ensures NormalizeText(NormalizeText(s)) == NormalizeText(s)
  {
    var r := NormalizeText(s);
    NormalizeTextShape(s);
    CollapseOfNormal(r);
    TrimOfTrimmed(r);
  }

  /** The longest prefix of `s` without white space. */
  function WordPrefix(s: string): (w: string)
    ensures |w| <= |s| && w == s[..|w|]
    ensures forall k :: 0 <= k < |w| ==> !IsSpace(w[k])
    ensures |w| < |s| ==> IsSpace(s[|w|])
    ensures s != [] && !IsSpace(s[0]) ==> w != []
  {
    if s == [] || IsSpace(s[0]) then [] else [s[0]] + WordPrefix(s[1..])
  }

  /** A word: non-empty, without white space. */
  predicate IsWord(w: string) {
    w != [] && forall k :: 0 <= k < |w| ==> !IsSpace(w[k])
  }

  /** The words of `s`: its maximal runs of non-white-space characters, in order. */
  function Words(s: string): (ws: seq<string>)
    ensures forall i :: 0 <= i < |ws| ==> IsWord(ws[i])
    decreases |s|
  {
    var t := TrimStart(s);
    if t == [] then []
    else
      var w := WordPrefix(t);
      assert IsWord(w);
      var rest := Words(t[|w|..]);
      [w] + rest
  }

  /** Leading white space does not change the words. */
  lemma WordsTrimStart(s: string)
    ensures Words(TrimStart(s)) == Words(s)
  {
    var t := TrimStart(s);
    assert TrimStart(t) == t;
  }

  /** A word in front of the rest passes through `replace(/\s+/g, ' ')` unchanged. */
  lemma {:induction false} CollapseOfWord(w: string, rest: string)
    requires forall k :: 0 <= k < |w| ==> !IsSpace(w[k])
    ensures CollapseSpaces(w + rest) == w + CollapseSpaces(rest)
    decreases |w|
  {
    if w != [] {
      assert (w + rest)[1..] == w[1..] + rest;
      CollapseOfWord(w[1..], rest);
      assert w == [w[0]] + w[1..];
    } else {
      assert w + rest == rest;
    }
  }

  /** Trailing white space of a concatenation comes from its second part
      unless that part is all white space. */
  lemma {:induction false} TrimEndAppend(a: string, b: string)
    ensures TrimEnd(a + b) == if TrimEnd(b) == [] then TrimEnd(a) else a + TrimEnd(b)
    decreases |b|
  {
    if b == [] {
      assert a + b == a;
    } else if IsSpace(b[|b| - 1]) {
      assert (a + b)[..|a + b| - 1] == a + b[..|b| - 1];
      TrimEndAppend(a, b[..|b| - 1]);
    }
  }

  /** For text starting with a word, the collapsed text without its
      trailing space is the words joined by single spaces. */
  lemma {:induction false} CollapsedWords(t: string)
    requires t == [] || !IsSpace(t[0])
    ensures TrimEnd(CollapseSpaces(t)) == Join(Words(t), ' ')
    decreases |t|
  {
    if t != [] {
      assert TrimStart(t) == t;
      var w := WordPrefix(t);
      var rest := t[|w|..];
      assert t == w + rest;
      CollapseOfWord(w, rest);
      assert Words(t) == [w] + Words(rest);
      if rest == [] {
        assert TrimEnd(w) == w;
        assert Words(rest) == [];
        assert w + CollapseSpaces(rest) == w;
      } else {
        var u := TrimStart(rest[1..]);
        assert TrimStart(rest) == u;
        WordsTrimStart(rest);
        if u != [] {
          CollapsedWords(u);
        }
        WordThenSpaces(w, rest, u);
      }
    }
  }

  /** The step of `CollapsedWords` after a word followed by white space. */
  lemma WordThenSpaces(w: string, rest: string, u: string)
    requires IsWord(w) && rest != [] && IsSpace(rest[0])
    requires u == TrimStart(rest[1..]) && TrimStart(rest) == u && Words(rest) == Words(u)
    requires u != [] ==> TrimEnd(CollapseSpaces(u)) == Join(Words(u), ' ')
    ensures TrimEnd(w + CollapseSpaces(rest)) == Join([w] + Words(rest), ' ')
  {
    var c := CollapseSpaces(u);
    CollapseAfterSpace(rest, u);
    AppendAssoc(w, " ", c);
    TrimEndAppend(w + " ", c);
    if u == [] {
      WordThenSpaceTrimmed(w);
    } else {
      assert !IsSpace(c[0]);
      assert TrimEnd(c) != [];
      JoinCons(w, Words(u));
    }
  }

  lemma CollapseAfterSpace(rest: string, u: string)
    requires rest != [] && IsSpace(rest[0]) && u == TrimStart(rest[1..])
    ensures CollapseSpaces(rest) == " " + CollapseSpaces(u)
  {
  }

  lemma AppendAssoc<T>(a: seq<T>, b: seq<T>, c: seq<T>)
    ensures a + (b + c) == (a + b) + c
  {
  }

  /** A word followed by one space loses only that space to `trimEnd`. */
  lemma WordThenSpaceTrimmed(w: string)
    requires IsWord(w)
    ensures TrimEnd(w + " ") == w
  {
    assert (w + " ")[..|w + " "| - 1] == w;
    assert TrimEnd(w) == w;
  }

  /** Joining a word in front of further words puts one separator between. */
  lemma JoinCons(w: string, ws: seq<string>)
    requires ws != []
    ensures Join([w] + ws, ' ') == w + " " + Join(ws, ' ')
  {
    assert ([w] + ws)[1..] == ws;
  }

  /** `s.replace(/\s+/g, ' ').trim()` is the words of `s` joined by single
      spaces: each run of white space between two words becomes exactly one
      space, and white space at either end goes. */
  lemma NormalizeTextIsJoinedWords(s: string)
    ensures NormalizeText(s) == Join(Words(s), ' ')
  {
    var u := TrimStart(s);
    WordsTrimStart(s);
    CollapsedWords(u);
    var c := CollapseSpaces(u);
    assert TrimStart(c) == c;
    if s != [] && IsSpace(s[0]) {
      assert TrimStart(s) == TrimStart(s[1..]);
      assert CollapseSpaces(s) == " " + c;
      assert TrimStart(" " + c) == TrimStart(c);
    } else {
      assert u == s;
    }
  }

  // ---------------------------------------------------------------------
  // toLowerCase, includes, startsWith

  /** `toLowerCase` on one character; only the ASCII letters are mapped. */
  function LowerChar(c: char): char {
    if 'A' <= c <= 'Z' then (c as int + 32) as char else c
  }

  function ToLower(s: string): (r: string)
    ensures |r| == |s|
  {
    if s == [] then [] else [LowerChar(s[0])] + ToLower(s[1..])
  }

  /** Lower-casing works character by character. */
  lemma {:induction false} ToLowerAt(s: string)
    ensures forall k :: 0 <= k < |s| ==> ToLower(s)[k] == LowerChar(s[k])
    decreases |s|
  {
    if s != [] {
      ToLowerAt(s[1..]);
    }
  }

  /** `s.includes(sub)`: `sub` starts at some position of `s`. */
  predicate Includes(s: string, sub: string)
    decreases |s|
  {
    StartsWith(s, sub) || (s != [] && Includes(s[1..], sub))
  }

  /** A string includes `sub` exactly when `sub` starts at one of its
      positions. */
  lemma {:induction false} IncludesIff(s: string, sub: string)
    ensures Includes(s, sub) <==> exists i :: 0 <= i <= |s| && StartsWith(s[i..], sub)
    decreases |s|
  {
    assert s[0..] == s;
    if s != [] {
      IncludesIff(s[1..], sub);
      if Includes(s[1..], sub) {
        var i :| 0 <= i <= |s[1..]| && StartsWith(s[1..][i..], sub);
        assert s[1..][i..] == s[i + 1..];
      }
      if exists i :: 0 <= i <= |s| && StartsWith(s[i..], sub) {
        var i :| 0 <= i <= |s| && StartsWith(s[i..], sub);
        if i > 0 {
          assert s[1..][i - 1..] == s[i..];
        }
      }
    }
  }

  /** `s.startsWith(p)`. */
  predicate StartsWith(s: string, p: string) {
    |p| <= |s| && s[..|p|] == p
  }

  // ---------------------------------------------------------------------
  // split and join on one character

  /** `parts.join(sep)`. */
  function Join(parts: seq<string>, sep: char): string {
    if parts == [] then []
    else if |parts| == 1 then parts[0]
    else parts[0] + [sep] + Join(parts[1..], sep)
  }

  /** `s.split(sep)`: the pieces between occurrences of `sep`; joining them
      back gives `s`, and there is one more piece than separators. */
  function Split(s: string, sep: char): (parts: seq<string>)
    ensures |parts| == multiset(s)[sep] + 1
    ensures forall i :: 0 <= i < |parts| ==> sep !in parts[i]
    ensures Join(parts, sep) == s
  {
    if s == [] then [[]]
    else
      var rest := Split(s[1..], sep);
      SplitStep(s, sep, rest);
      if s[0] == sep then [[]] + rest else [[s[0]] + rest[0]] + rest[1..]
  }

  /** `parts` are the pieces of `s` between separators. */
  predicate SplitsInto(s: string, sep: char, parts: seq<string>) {
    |parts| == multiset(s)[sep] + 1 &&
    (forall i :: 0 <= i < |parts| ==> sep !in parts[i]) &&
    Join(parts, sep) == s
  }

  /** One character in front of a split string: a separator opens a new
      first piece, any other character joins the first piece. */
  lemma SplitStep(s: string, sep: char, rest: seq<string>)
    requires s != [] && SplitsInto(s[1..], sep, rest)
    ensures SplitsInto(s, sep, if s[0] == sep then [[]] + rest else [[s[0]] + rest[0]] + rest[1..])
  {
    assert s == [s[0]] + s[1..];
    if s[0] == sep {
      SplitStepAtSep(s[0], s[1..], sep, rest);
    } else {
      SplitStepInPiece(s[0], s[1..], sep, rest);
    }
  }

  lemma SplitStepAtSep(c: char, t: string, sep: char, rest: seq<string>)
    requires c == sep && SplitsInto(t, sep, rest)
    ensures SplitsInto([c] + t, sep, [[]] + rest)
  {
    var parts := [[]] + rest;
    assert multiset([c] + t)[sep] == multiset(t)[sep] + 1;
    assert |parts| == multiset([c] + t)[sep] + 1;
    assert forall i :: 0 <= i < |parts| ==> sep !in parts[i] by {
      forall i | 0 <= i < |parts| ensures sep !in parts[i] {
        if i > 0 {
          assert parts[i] == rest[i - 1];
        }
      }
    }
    assert parts[1..] == rest;
    assert Join(parts, sep) == [] + [sep] + Join(rest, sep);
  }

  lemma SplitStepInPiece(c: char, t: string, sep: char, rest: seq<string>)
    requires c != sep && SplitsInto(t, sep, rest)
    ensures SplitsInto([c] + t, sep, [[c] + rest[0]] + rest[1..])
  {
    var parts := [[c] + rest[0]] + rest[1..];
    assert multiset([c] + t)[sep] == multiset(t)[sep];
    assert |parts| == multiset([c] + t)[sep] + 1;
    assert forall i :: 0 <= i < |parts| ==> sep !in parts[i] by {
      forall i | 0 <= i < |parts| ensures sep !in parts[i] {
        if i > 0 {
          assert parts[i] == rest[i];
        }
      }
    }
    assert parts[1..] == rest[1..];
    if |rest| > 1 {
      assert Join(rest, sep) == rest[0] + [sep] + Join(rest[1..], sep);
      assert Join(parts, sep) == ([c] + rest[0]) + [sep] + Join(rest[1..], sep);
    }
  }

  /** A string without the separator splits into itself alone. */
  lemma {:induction false} SplitWithoutSep(s: string, sep: char)
    requires sep !in s
    ensures Split(s, sep) == [s]
    decreases |s|
  {
    if s != [] {
      SplitWithoutSep(s[1..], sep);
      assert s == [s[0]] + s[1..];
    }
  }

  /** A leading character other than the separator joins the first piece. */
  lemma SplitCons(c: char, t: string, sep: char)
    requires c != sep
    ensures Split([c] + t, sep) == [[c] + Split(t, sep)[0]] + Split(t, sep)[1..]
  {
    assert ([c] + t)[1..] == t;
  }

  /** A separator-free first piece comes off whole at the first separator. */
  lemma {:induction false} SplitAtFirstSep(p: string, sep: char, x: string)
    requires sep !in p
    ensures Split(p + [sep] + x, sep) == [p] + Split(x, sep)
    decreases |p|
  {
    if p == [] {
      assert p + [sep] + x == [sep] + x;
      assert ([sep] + x)[1..] == x;
    } else {
      var t := p[1..] + [sep] + x;
      assert [p[0]] + t == p + [sep] + x;
      assert [p[0]] + p[1..] == p;
      SplitAtFirstSep(p[1..], sep, x);
      SplitCons(p[0], t, sep);
    }
  }

  /** Splitting a join of separator-free pieces gives the pieces back. */
  lemma {:induction false} SplitJoin(parts: seq<string>, sep: char)
    requires parts != []
    requires forall i :: 0 <= i < |parts| ==> sep !in parts[i]
    ensures Split(Join(parts, sep), sep) == parts
    decreases |parts|
  {
    if |parts| == 1 {
      SplitWithoutSep(parts[0], sep);
    } else {
      SplitJoin(parts[1..], sep);
      SplitAtFirstSep(parts[0], sep, Join(parts[1..], sep));
      assert parts == [parts[0]] + parts[1..];
    }
  }

  // ---------------------------------------------------------------------
  // slice

  /** How `slice` resolves a position: negative counts from the end, then clamped. */
  function RelativeIndex(x: int, len: nat): (r: nat)
    ensures r <= len
  {
    if x < 0 then (if len + x < 0 then 0 else len + x)
    else if x < len then x
    else len
  }

  /** `s.slice(start, end)`. */
  function Slice<T>(s: seq<T>, start: int, end: int): seq<T> {
    var from, to := RelativeIndex(start, |s|), RelativeIndex(end, |s|);
    if from < to then s[from..to] else []
  }

  // ---------------------------------------------------------------------
  // numbers

  function DigitChar(d: nat): (c: char)
    requires d < 10
    ensures IsDigit(c)
  {
    ('0' as int + d) as char
  }

  function DigitValue(c: char): nat
    requires IsDigit(c)
  {
    c as int - '0' as int
  }

  /** `String(n)` for a non-negative integer. */
  function NatToString(n: nat): (r: string)
    ensures r != [] && AllDigits(r)
  {
    if n < 10 then [DigitChar(n)] else NatToString(n / 10) + [DigitChar(n % 10)]
  }

  /** `String(n)`. */
  function IntToString(n: int): string {
    if n < 0 then "-" + NatToString(-n) else NatToString(n)
  }

  /** The number a string of decimal digits denotes. */
  function DigitsValue(s: string): nat
    requires AllDigits(s)
  {
    if s == [] then 0 else DigitsValue(s[..|s| - 1]) * 10 + DigitValue(s[|s| - 1])
  }

  lemma {:induction false} NatToStringRoundTrip(n: nat)
    ensures DigitsValue(NatToString(n)) == n
    decreases n
  {
    if n >= 10 {
      var s := NatToString(n);
      assert s[..|s| - 1] == NatToString(n / 10);
      NatToStringRoundTrip(n / 10);
    }
  }

  /** `s.padStart(width, fill)`. */
  function PadStart(s: string, width: nat, fill: char): (r: string)
    ensures |r| == if |s| >= width then |s| else width
    ensures r[|r| - |s|..] == s
    ensures forall k :: 0 <= k < |r| - |s| ==> r[k] == fill
  {
    if |s| >= width then s else seq(width - |s|, _ => fill) + s
  }

  /** The longest prefix of `s` made of decimal digits. */
  function DigitPrefix(s: string): (r: string)
    ensures |r| <= |s| && r == s[..|r|] && AllDigits(r)
    ensures |r| < |s| ==> !IsDigit(s[|r|])
    ensures AllDigits(s) ==> r == s
  {
    if s != [] && IsDigit(s[0]) then [s[0]] + DigitPrefix(s[1..]) else []
  }

  predicate IsHexDigit(c: char) {
    IsDigit(c) || 'a' <= c <= 'f' || 'A' <= c <= 'F'
  }

  predicate AllHexDigits(s: string) {
    forall k :: 0 <= k < |s| ==> IsHexDigit(s[k])
  }

  function HexDigitValue(c: char): (v: nat)
    requires IsHexDigit(c)
    ensures v < 16
  {
    if IsDigit(c) then DigitValue(c)
    else if 'a' <= c <= 'f' then c as int - 'a' as int + 10
    else c as int - 'A' as int + 10
  }

  /** The longest prefix of `s` made of hexadecimal digits. */
  function HexPrefix(s: string): (r: string)
    ensures |r| <= |s| && r == s[..|r|] && AllHexDigits(r)
    ensures |r| < |s| ==> !IsHexDigit(s[|r|])
    ensures AllHexDigits(s) ==> r == s
  {
    if s != [] && IsHexDigit(s[0]) then [s[0]] + HexPrefix(s[1..]) else []
  }

  /** The number a string of hexadecimal digits denotes. */
  function HexValue(s: string): nat
    requires AllHexDigits(s)
  {
    if s == [] then 0 else HexValue(s[..|s| - 1]) * 16 + HexDigitValue(s[|s| - 1])
  }

  /** `0x` or `0X`, which makes a radix-less `parseInt` read base 16. */
  predicate HasHexPrefix(b: string) {
    |b| >= 2 && b[0] == '0' && (b[1] == 'x' || b[1] == 'X')
  }

  /** The first character after the leading white space is a minus sign. */
  predicate Negative(s: string) {
    var t := TrimStart(s);
    t != [] && t[0] == '-'
  }

  /** What `parseInt` reads after the leading white space and the sign. */
  function ParseBody(s: string): string {
    var t := TrimStart(s);
    if t != [] && (t[0] == '-' || t[0] == '+') then t[1..] else t
  }

  /** The magnitude `parseInt` reads from an unsigned body: after a hex
      prefix the longest run of hex digits, otherwise the longest run of
      decimal digits; `None` when that run is empty. */
  function Magnitude(b: string): (m: Option<nat>)
    ensures HasHexPrefix(b) ==> (m.None? <==> HexPrefix(b[2..]) == [])
    ensures !HasHexPrefix(b) ==> (m.None? <==> DigitPrefix(b) == [])
  {
    if HasHexPrefix(b) then
      var hs := HexPrefix(b[2..]);
      if hs == [] then None else Some(HexValue(hs))
    else
      var ds := DigitPrefix(b);
      if ds == [] then None else Some(DigitsValue(ds))
  }

  /** `parseInt(s)` with no radix: leading white space, an optional sign,
      then hexadecimal digits after `0x` or `0X` and decimal digits
      otherwise; `None` stands for `NaN`. */
  function ParseInt(s: string): (r: Option<int>)
    ensures r.None? <==> Magnitude(ParseBody(s)).None?
    ensures r.Some? ==> r.value == if Negative(s) then -(Magnitude(ParseBody(s)).value as int) else Magnitude(ParseBody(s)).value
  {
    match Magnitude(ParseBody(s))
    case None => None
    case Some(m) => var v: int := m; if Negative(s) then Some(-v) else Some(v)
  }

  /** On a non-empty string of digits `parseInt` is the digits' value. */
  lemma ParseIntOfDigits(s: string)
    requires s != [] && AllDigits(s)
    ensures ParseInt(s) == Some(DigitsValue(s))
  {
    assert TrimStart(s) == s;
    assert !HasHexPrefix(s) by {
      if |s| >= 2 {
        assert IsDigit(s[1]);
      }
    }
  }

  /** After `0x` or `0X` the hex digits are read in base 16. */
  lemma ParseIntOfHex(x: char, ds: string)
    requires x == 'x' || x == 'X'
    requires ds != [] && AllHexDigits(ds)
    ensures ParseInt(['0', x] + ds) == Some(HexValue(ds))
  {
    var s := ['0', x] + ds;
    assert TrimStart(s) == s;
    assert s[2..] == ds;
  }

  /** A hex prefix with no hex digit after it is `NaN`, even though its
      `0` alone would read as a decimal zero. */
  lemma ParseIntOfBareHexPrefix(x: char, rest: string)
    requires x == 'x' || x == 'X'
    requires rest == [] || !IsHexDigit(rest[0])
    ensures ParseInt(['0', x] + rest) == None
    ensures DigitPrefix(['0', x] + rest) == "0"
  {
    var s := ['0', x] + rest;
    assert TrimStart(s) == s;
    assert s[2..] == rest;
    assert s[1..] == [x] + rest;
  }

  // ---------------------------------------------------------------------
  // replace(/p\n?/g, '') for a literal pattern p

  /** `s.replace(/p\n?/g, '')`: scanning left to right, every occurrence of
      `pat`, together with one line feed right after it, is deleted. */
  function DeleteAll(s: string, pat: string): (r: string)
    requires pat != []
    ensures |r| <= |s|
    decreases |s|
  {
    if s == [] then []
    else if StartsWith(s, pat) then
      var rest := s[|pat|..];
      DeleteAll(if rest != [] && rest[0] == '\n' then rest[1..] else rest, pat)
    else [s[0]] + DeleteAll(s[1..], pat)
  }
}
