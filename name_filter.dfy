/**
 The filter-text mini-language of the dependency graph view: the text a user
 types is trimmed, and a literal space at its start or end anchors the match.
 `Compile` turns the raw text into the name predicate that
 `DependencyGraphFilter.SetFilter` stores.
 */
module NameFilter {

  /** The characters `String.prototype.trim` removes: ECMAScript WhiteSpace
      (tab, vertical tab, form feed, space, no-break space, byte order mark
      and the Unicode space separators U+1680, U+2000 to U+200A, U+202F,
      U+205F and U+3000) and LineTerminator (LF, CR, LS, PS). */
  predicate IsWhitespace(c: char) {
    || 9 <= c as int <= 13 || c == ' ' || c == '\U{00A0}' || c == '\U{1680}'
    || 0x2000 <= c as int <= 0x200A || c == '\U{2028}' || c == '\U{2029}'
    || c == '\U{202F}' || c == '\U{205F}' || c == '\U{3000}' || c == '\U{FEFF}'
  }

  /** Every character of `s` is in the class `ws`. */
  predicate AllIn(s: string, ws: char -> bool) {
    forall i :: 0 <= i < |s| ==> ws(s[i])
  }

  predicate AllWhitespace(s: string) {
    AllIn(s, IsWhitespace)
  }

  /** `s` without its leading characters of class `ws`. */
  function TrimStart(s: string, ws: char -> bool): (r: string)
    ensures |r| <= |s| && r == s[|s| - |r|..]
    ensures AllIn(s[..|s| - |r|], ws)
    ensures r == [] || !ws(r[0])
  {
    if |s| > 0 && ws(s[0]) then
      var r := TrimStart(s[1..], ws);
      assert s[..|s| - |r|] == [s[0]] + s[1..][..|s| - 1 - |r|];
      r
    else s
  }

  /** `s` without its trailing characters of class `ws`. */
  function TrimEnd(s: string, ws: char -> bool): (r: string)
    ensures |r| <= |s| && r == s[..|r|]
    ensures AllIn(s[|r|..], ws)
    ensures r == [] || !ws(r[|r| - 1])
  {
    if |s| > 0 && ws(s[|s| - 1]) then
      var r := TrimEnd(s[..|s| - 1], ws);
      assert s[|r|..] == s[..|s| - 1][|r|..] + [s[|s| - 1]];
      r
    else s
  }

  /** `r` is `s` with the characters before position `i` and after
      position `i + |r|` removed, and all of those are of class `ws`. */
  predicate Trimmed(s: string, i: int, r: string, ws: char -> bool) {
    && 0 <= i <= |s| - |r| && r == s[i..i + |r|]
    && AllIn(s[..i], ws) && AllIn(s[i + |r|..], ws)
  }

  /** The facts `TrimStart` and then `TrimEnd` establish, combined: what is
      left is an infix of `s`, everything removed on either side is of class
      `ws`, and nothing is left exactly when all of `s` is of class `ws`. */
  lemma TrimBothEnds(s: string, front: string, r: string, ws: char -> bool)
    requires |front| <= |s| && front == s[|s| - |front|..]
    requires AllIn(s[..|s| - |front|], ws) && (front == [] || !ws(front[0]))
    requires |r| <= |front| && r == front[..|r|]
    requires AllIn(front[|r|..], ws) && (r == [] || !ws(r[|r| - 1]))
    ensures Trimmed(s, |s| - |front|, r, ws)
    ensures r != [] ==> !ws(r[0]) && !ws(r[|r| - 1])
    ensures r == [] <==> AllIn(s, ws)
  {
    var i := |s| - |front|;
    assert r == s[i..i + |r|];
    assert AllIn(s[i + |r|..], ws) by {
      assert s[i + |r|..] == front[|r|..];
    }
    if r != [] {
      assert r[0] == front[0];
    } else {
      assert front == [];
      assert s[..i] == s;
    }
    if front != [] {
      assert s[i] == front[0];
    }
  }

  /** `s` without characters of class `ws` at either end. */
  function TrimIn(s: string, ws: char -> bool): (r: string)
    ensures exists i :: Trimmed(s, i, r, ws)
    ensures r != [] ==> !ws(r[0]) && !ws(r[|r| - 1])
    ensures r == [] <==> AllIn(s, ws)
  {
    var front := TrimStart(s, ws);
    var r := TrimEnd(front, ws);
    TrimBothEnds(s, front, r, ws);
    r
  }

  /** `text.trim()`: `s` without whitespace at either end. Its properties
      are those of `TrimIn` for the class `IsWhitespace`. */
  function Trim(s: string): string {
    TrimIn(s, IsWhitespace)
  }

  /** `s.startsWith(p)` */
  predicate StartsWith(s: string, p: string) {
    |p| <= |s| && s[..|p|] == p
  }

  /** `s.endsWith(p)` */
  predicate EndsWith(s: string, p: string) {
    |p| <= |s| && s[|s| - |p|..] == p
  }

  /** `t` occurs in `s` starting at position `i`. */
  predicate OccursAt(s: string, t: string, i: int) {
    0 <= i && i + |t| <= |s| && s[i..i + |t|] == t
  }

  /** The first position at or after `from` where `t` occurs, or -1 when
      there is none. For `from == 0` this is `s.indexOf(t)`; unlike
      JavaScript's `indexOf(t, from)` it does not clamp a `from` past the
      end of `s`, so it is only used with `from == 0`. */
  function IndexOfFrom(s: string, t: string, from: nat): (r: int)
    ensures r == -1 || (from <= r && OccursAt(s, t, r))
    ensures r == -1 <==> forall i :: from <= i ==> !OccursAt(s, t, i)
    ensures forall i :: from <= i < r ==> !OccursAt(s, t, i)
    decreases |s| - from
  {
    if from + |t| > |s| then -1
    else if s[from..from + |t|] == t then from
    else IndexOfFrom(s, t, from + 1)
  }

  /** `s.indexOf(t)` */
  function IndexOf(s: string, t: string): int {
    IndexOfFrom(s, t, 0)
  }

  /** The predicate `setFilter(text)` installs. */
  function Compile(text: string): string -> bool {
    var textTrim := Trim(text);
    if |textTrim| == 0 then
      (name: string) => true
    else if StartsWith(text, " ") && EndsWith(text, " ") then
      (name: string) => name == textTrim
    else if StartsWith(text, " ") then
      (name: string) => StartsWith(name, textTrim)
    else if EndsWith(text, " ") then
      (name: string) => EndsWith(name, textTrim)
    else
      (name: string) => IndexOf(name, textTrim) >= 0
  }

  lemma StartsWithIff(s: string, p: string)
    ensures StartsWith(s, p) <==> exists rest :: s == p + rest
  {
    if StartsWith(s, p) {
      assert s == p + s[|p|..];
    }
  }

  lemma EndsWithIff(s: string, p: string)
    ensures EndsWith(s, p) <==> exists front :: s == front + p
  {
    if EndsWith(s, p) {
      assert s == s[..|s| - |p|] + p;
    }
    if exists front :: s == front + p {
      var front :| s == front + p;
      assert s[|s| - |p|..] == p;
    }
  }

  /** `indexOf` finds something exactly when `t` is an infix of `s`. */
  lemma IndexOfIff(s: string, t: string)
    ensures IndexOf(s, t) >= 0 <==> exists front, back :: s == front + t + back
  {
    var r := IndexOf(s, t);
    if r >= 0 {
      assert s == s[..r] + t + s[r + |t|..];
    }
    if exists front, back :: s == front + t + back {
      var front, back :| s == front + t + back;
      assert OccursAt(s, t, |front|);
    }
  }

  /** Empty or whitespace-only text, and only such text, switches the filter
      off: every name is accepted. */
  lemma CompileAcceptsAllIff(text: string)
    ensures (forall name :: Compile(text)(name)) <==> AllWhitespace(text)
  {
    var t := Trim(text);
    if !AllWhitespace(text) {
      assert t != [];
      if !(StartsWith(text, " ") || EndsWith(text, " ")) {
        IndexOfIff("", t);
      }
      assert !Compile(text)("");
    }
  }

  /** Text with a space at both ends matches exactly the trimmed text; this
      test comes before the prefix and suffix tests. */
  lemma CompileExact(text: string, name: string)
    requires !AllWhitespace(text)
    requires text[0] == ' ' && text[|text| - 1] == ' '
    ensures Compile(text)(name) <==> name == Trim(text)
  {
    assert StartsWith(text, " ") && EndsWith(text, " ");
  }

  /** Text with a space at its start only matches the names that begin with
      the trimmed text. */
  lemma CompilePrefix(text: string, name: string)
    requires !AllWhitespace(text)
    requires text[0] == ' ' && text[|text| - 1] != ' '
    ensures Compile(text)(name) <==> exists rest :: name == Trim(text) + rest
  {
    assert StartsWith(text, " ") && !EndsWith(text, " ");
    StartsWithIff(name, Trim(text));
  }

  /** Text with a space at its end only matches the names that end with the
      trimmed text. */
  lemma CompileSuffix(text: string, name: string)
    requires !AllWhitespace(text)
    requires text[0] != ' ' && text[|text| - 1] == ' '
    ensures Compile(text)(name) <==> exists front :: name == front + Trim(text)
  {
    assert !StartsWith(text, " ") && EndsWith(text, " ");
    EndsWithIff(name, Trim(text));
  }

  /** Any other text matches the names that contain the trimmed text,
      case-sensitively, anywhere. Only a literal space anchors: text that
      starts or ends with another whitespace character falls in this case. */
  lemma CompileSubstring(text: string, name: string)
    requires !AllWhitespace(text)
    requires text[0] != ' ' && text[|text| - 1] != ' '
    ensures Compile(text)(name) <==> exists front, back :: name == front + Trim(text) + back
  {
    assert !StartsWith(text, " ") && !EndsWith(text, " ");
    IndexOfIff(name, Trim(text));
  }

  /** `TrimStart` removes exactly a leading run of class `ws`. */
  lemma {:induction false} TrimStartPadded(pre: string, rest: string, ws: char -> bool)
    requires AllIn(pre, ws) && (rest == [] || !ws(rest[0]))
    ensures TrimStart(pre + rest, ws) == rest
    decreases |pre|
  {
    if pre == [] {
      assert pre + rest == rest;
    } else {
      assert (pre + rest)[0] == pre[0];
      assert (pre + rest)[1..] == pre[1..] + rest;
      TrimStartPadded(pre[1..], rest, ws);
    }
  }

  /** `TrimEnd` removes exactly a trailing run of class `ws`. */
  lemma {:induction false} TrimEndPadded(rest: string, post: string, ws: char -> bool)
    requires AllIn(post, ws) && (rest == [] || !ws(rest[|rest| - 1]))
    ensures TrimEnd(rest + post, ws) == rest
    decreases |post|
  {
    if post == [] {
      assert rest + post == rest;
    } else {
      var s := rest + post;
      assert s[|s| - 1] == post[|post| - 1];
      assert s[..|s| - 1] == rest + post[..|post| - 1];
      TrimEndPadded(rest, post[..|post| - 1], ws);
    }
  }

  /** Trimming a padded text gives back exactly what the padding surrounds:
      together with the postcondition of `TrimIn`, this pins the result of
      `Trim` down entirely. */
  lemma TrimPadded(pre: string, core: string, post: string)
    requires AllWhitespace(pre) && AllWhitespace(post)
    requires core != [] && !IsWhitespace(core[0]) && !IsWhitespace(core[|core| - 1])
    ensures Trim(pre + core + post) == core
  {
    assert pre + core + post == pre + (core + post);
    assert (core + post)[0] == core[0];
    TrimStartPadded(pre, core + post, IsWhitespace);
    TrimEndPadded(core, post, IsWhitespace);
  }
}
