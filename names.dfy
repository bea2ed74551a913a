/**
 * Two string rules of the layout store: the directory name a layout is saved
 * under, and how a preset file name is shown (its scope and its title).
 * Characters are compared as ASCII; see the README for what that leaves out.
 */
module Names {
  import opened Php

  predicate IsLower(c: char) { 'a' <= c <= 'z' }
  predicate IsUpper(c: char) { 'A' <= c <= 'Z' }

  function ToLower(c: char): (r: char)
    ensures IsUpper(c) ==> IsLower(r) && r as int == c as int + 32
    ensures !IsUpper(c) ==> r == c
  {
    if IsUpper(c) then (c as int + 32) as char else c
  }

  function ToUpper(c: char): (r: char)
    ensures IsLower(c) ==> IsUpper(r) && r as int == c as int - 32
    ensures !IsLower(c) ==> r == c
  {
    if IsLower(c) then (c as int - 32) as char else c
  }

  // ---------------------------------------------------------------------
  // The save directory (line 223)
  // ---------------------------------------------------------------------

  /** The characters a save name keeps: letters of either case, digits, `_` and `-`. */
  predicate NameChar(c: char) {
    IsLower(c) || IsUpper(c) || IsDigit(c) || c == '_' || c == '-'
  }

  /** The characters a sanitised name is made of. */
  predicate SafeChar(c: char) {
    IsLower(c) || IsDigit(c) || c == '_' || c == '-'
  }

  /** Every other character becomes `_`, then the name is lower-cased. */
  function SanitizeName(name: string): (r: string)
    ensures |r| == |name|
    ensures forall i :: 0 <= i < |r| ==> SafeChar(r[i])
    ensures forall i :: 0 <= i < |r| ==> (r[i] == '_' <==> name[i] == '_' || !NameChar(name[i]))
    ensures forall i :: 0 <= i < |r| ==> (SafeChar(name[i]) ==> r[i] == name[i])
    ensures forall i :: 0 <= i < |r| ==> (IsUpper(name[i]) ==> r[i] == ToLower(name[i]))
  {
    seq(|name|, i requires 0 <= i < |name| => if NameChar(name[i]) then ToLower(name[i]) else '_')
  }

  /** A sanitised name is its own sanitised form. */
  lemma {:induction false} SanitizeIdempotent(name: string)
    ensures SanitizeName(SanitizeName(name)) == SanitizeName(name)
  {
    var r := SanitizeName(name);
    assert forall i :: 0 <= i < |r| ==> SanitizeName(r)[i] == r[i];
  }

  /** Two names that differ only in the case of letters are saved under the same directory. */
  lemma {:induction false} SanitizeIgnoresCase(a: string, b: string)
    requires |a| == |b| && forall i :: 0 <= i < |a| ==> ToLower(a[i]) == ToLower(b[i])
    ensures SanitizeName(a) == SanitizeName(b)
  {
    forall i | 0 <= i < |a| ensures SanitizeName(a)[i] == SanitizeName(b)[i] {
      assert NameChar(a[i]) <==> NameChar(b[i]);
    }
  }

  /** `save()` refuses an empty name (lines 219-221); otherwise it saves under the sanitised name. */
  function SaveDirectory(name: string): (r: Option<string>)
    ensures r.None? <==> FalsyString(name)
    ensures r.Some? ==> r.value == SanitizeName(name)
  {
    if FalsyString(name) then None else Some(SanitizeName(name))
  }

  // ---------------------------------------------------------------------
  // Preset scope and title (lines 85-86)
  // ---------------------------------------------------------------------

  /** A preset whose name is empty or starts with `_` is a system preset; the rest are user presets. */
  function PresetScope(preset: string): (scope: string)
    ensures scope == "user" || scope == "system"
    ensures scope == "system" <==> FalsyString(preset) || preset[0] == '_'
  {
    if !FalsyString(preset) && preset[0] != '_' then "user" else "system"
  }

  /** Every `_` becomes a space. */
  function Underscores(s: string): (r: string)
    ensures |r| == |s|
    ensures forall i :: 0 <= i < |s| ==> r[i] == if s[i] == '_' then ' ' else s[i]
  {
    seq(|s|, i requires 0 <= i < |s| => if s[i] == '_' then ' ' else s[i])
  }

  /** Every `/` becomes ` / `. */
  function Slashes(s: string): (r: string)
    ensures |r| >= |s|
    ensures forall c :: c in r ==> c in s || c == ' '
    ensures forall c :: c in s && c != '/' ==> c in r
  {
    if s == [] then []
    else
      var rest := Slashes(s[..|s| - 1]);
      var c := s[|s| - 1];
      assert forall d :: d in s[..|s| - 1] ==> d in s;
      assert forall d :: d in s ==> d in s[..|s| - 1] || d == c;
      rest + if c == '/' then " / " else [c]
  }

  /** `Slashes` works character by character: a concatenation is replaced piece by piece. */
  lemma {:induction false} SlashesAppend(a: string, b: string)
    ensures Slashes(a + b) == Slashes(a) + Slashes(b)
    decreases |b|
  {
    if b == [] {
      assert a + b == a;
    } else {
      var b' := b[..|b| - 1];
      var c := b[|b| - 1];
      assert (a + b)[..|a + b| - 1] == a + b';
      assert (a + b)[|a + b| - 1] == c;
      SlashesAppend(a, b');
    }
  }

  /** A single `/` becomes ` / `; any other character stays as it is. */
  lemma {:induction false} SlashesChar(c: char)
    ensures Slashes([c]) == if c == '/' then " / " else [c]
  {
    assert [c][..0] == [];
  }

  /** A string without `/` is left as it is. */
  lemma {:induction false} SlashesNone(s: string)
    requires '/' !in s
    ensures Slashes(s) == s
  {
    if s != [] {
      var pre := s[..|s| - 1];
      assert '/' !in pre by {
        assert forall d :: d in pre ==> d in s;
      }
      SlashesNone(pre);
      assert s == pre + [s[|s| - 1]];
    }
  }

  /** The characters `trim()` strips by default. */
  predicate TrimChar(c: char) {
    c == ' ' || c == '\t' || c == '\n' || c == '\r' || c == '\0' || c == '\U{0B}'
  }

  /** The position of the first character `trim()` keeps. */
  function Lead(s: string): (i: nat)
    ensures i <= |s| && (i < |s| ==> !TrimChar(s[i]))
    ensures forall k :: 0 <= k < i ==> TrimChar(s[k])
  {
    if s != [] && TrimChar(s[0]) then
      var i := Lead(s[1..]);
      assert forall k :: 1 <= k < i + 1 ==> s[k] == s[1..][k - 1];
      i + 1
    else 0
  }

  /** The position after the last character `trim()` keeps, searching from `lo`. */
  function Tail(s: string, lo: nat): (j: nat)
    requires lo <= |s|
    ensures lo <= j <= |s| && (j > lo ==> !TrimChar(s[j - 1]))
    ensures forall k :: j <= k < |s| ==> TrimChar(s[k])
    decreases |s|
  {
    if |s| > lo && TrimChar(s[|s| - 1]) then
      var j := Tail(s[..|s| - 1], lo);
      assert forall k :: j <= k < |s| - 1 ==> s[k] == s[..|s| - 1][k];
      j
    else |s|
  }

  /**
   * `trim()`: what remains once the trimmed characters at both ends are
   * dropped; it neither starts nor ends with one, and holds no character the
   * string did not.
   */
  function Trim(s: string): (r: string)
    ensures |r| <= |s| && forall c :: c in r ==> c in s
    ensures r == [] || (!TrimChar(r[0]) && !TrimChar(r[|r| - 1]))
  {
    var i := Lead(s);
    var j := Tail(s, i);
    assert forall c :: c in s[i..j] ==> c in s;
    s[i..j]
  }

  /** The result of `trim()` is a slice of the string, and only trimmed characters are dropped around it. */
  lemma {:induction false} TrimDropsOnlyBlanks(s: string)
    ensures exists i, j :: (0 <= i <= j <= |s| && Trim(s) == s[i..j] &&
      (forall k :: 0 <= k < i ==> TrimChar(s[k])) && (forall k :: j <= k < |s| ==> TrimChar(s[k])))
  {
    var i := Lead(s);
    var j := Tail(s, i);
    assert Trim(s) == s[i..j];
  }

  /** The word separators of `ucwords()`. */
  predicate WordBreak(c: char) {
    c == ' ' || c == '\t' || c == '\r' || c == '\n' || c == '\U{0C}' || c == '\U{0B}'
  }

  /** `ucwords()`: the first letter of the string and every letter after a separator is upper-cased. */
  function UcWords(s: string): (r: string)
    ensures |r| == |s|
    ensures |s| > 0 ==> r[0] == ToUpper(s[0])
    ensures forall i :: 0 < i < |s| ==> r[i] == if WordBreak(s[i - 1]) then ToUpper(s[i]) else s[i]
  {
    seq(|s|, i requires 0 <= i < |s| => if i == 0 || WordBreak(s[i - 1]) then ToUpper(s[i]) else s[i])
  }

  /** The title shown for a preset file name. */
  function PresetTitle(preset: string): string {
    UcWords(Trim(Slashes(Underscores(preset))))
  }

  /**
   * The title of a preset name made of letters, digits and `-` only is the
   * name with its first letter upper-cased and nothing else changed.
   */
  lemma {:induction false} PresetTitlePlain(preset: string)
    requires preset != [] && forall i :: 0 <= i < |preset| ==> NameChar(preset[i]) && preset[i] != '_'
    ensures PresetTitle(preset) == [ToUpper(preset[0])] + preset[1..]
  {
    forall i | 0 <= i < |preset| ensures preset[i] != '/' && !TrimChar(preset[i]) && !WordBreak(preset[i]) {
      NameCharPlain(preset[i]);
    }
    var u := Underscores(preset);
    assert forall i :: 0 <= i < |u| ==> u[i] == preset[i];
    assert u == preset;
    SlashesNone(preset);
    TrimNone(preset);
    UcWordsPlain(preset);
  }

  /** A name character is neither `/`, nor trimmed, nor a word separator. */
  lemma {:induction false} NameCharPlain(c: char)
    requires NameChar(c)
    ensures c != '/' && !TrimChar(c) && !WordBreak(c)
  {
  }

  /** A string with no trimmed character at either end is its own `trim()`. */
  lemma {:induction false} TrimNone(s: string)
    requires s != [] && !TrimChar(s[0]) && !TrimChar(s[|s| - 1])
    ensures Trim(s) == s
  {
    assert Lead(s) == 0;
    assert Tail(s, 0) == |s|;
  }

  /** A string with no word separator has only its first character upper-cased. */
  lemma {:induction false} UcWordsPlain(s: string)
    requires s != [] && forall i :: 0 <= i < |s| ==> !WordBreak(s[i])
    ensures UcWords(s) == [ToUpper(s[0])] + s[1..]
  {
    var t := UcWords(s);
    forall i | 0 < i < |s| ensures t[i] == s[i] {
      assert !WordBreak(s[i - 1]);
    }
  }

  /** A title has no `_`, and does not start or end with blank space. */
  lemma {:induction false} PresetTitleShape(preset: string)
    ensures var t := PresetTitle(preset);
      '_' !in t && (t == [] || (!TrimChar(t[0]) && !TrimChar(t[|t| - 1])))
  {
    var s := Slashes(Underscores(preset));
    var m := Trim(s);
    var t := UcWords(m);
    assert '_' !in s;
    UcWordsKeeps(m);
  }

  /** Upper-casing word starts changes no character other than a lower-case letter. */
  lemma {:induction false} UcWordsKeeps(m: string)
    ensures forall k :: 0 <= k < |m| ==> (UcWords(m)[k] == m[k] || IsLower(m[k]))
    ensures forall k :: 0 <= k < |m| ==> (UcWords(m)[k] == '_' <==> m[k] == '_')
    ensures forall k :: 0 <= k < |m| ==> (TrimChar(UcWords(m)[k]) <==> TrimChar(m[k]))
  {
  }

  /** In a title, no word starts with a lower-case letter. */
  lemma {:induction false} PresetTitleWords(preset: string)
    ensures var t := PresetTitle(preset);
      (t != [] ==> !IsLower(t[0])) && forall i :: 0 < i < |t| && WordBreak(t[i - 1]) ==> !IsLower(t[i])
  {
    var m := Trim(Slashes(Underscores(preset)));
    var t := UcWords(m);
    forall i | 0 < i < |t| && WordBreak(t[i - 1]) ensures !IsLower(t[i]) {
      assert WordBreak(m[i - 1]);
    }
  }
}
