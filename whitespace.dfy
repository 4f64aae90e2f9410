/** Go's `strings.Fields` and `strings.Join`, over strings as sequences of
    characters, and the whitespace collapse `Join(Fields(s), " ")` that the
    notification text goes through. */
module Whitespace {

  /** Go's `unicode.IsSpace`: the Latin-1 spaces and the other characters with
      the Unicode White_Space property. */
  predicate IsSpace(c: char) {
    || c == '\t' || c == '\n' || c == '\U{000B}' || c == '\U{000C}' || c == '\r' || c == ' '
    || c == '\U{0085}' || c == '\U{00A0}' || c == '\U{1680}'
    || ('\U{2000}' <= c <= '\U{200A}')
    || c == '\U{2028}' || c == '\U{2029}' || c == '\U{202F}' || c == '\U{205F}' || c == '\U{3000}'
  }

  predicate NoSpace(w: string) {
    forall i :: 0 <= i < |w| ==> !IsSpace(w[i])
  }

  /** What `strings.Fields` returns: non-empty words without whitespace. */
  predicate ValidFields(fs: seq<string>) {
    forall i :: 0 <= i < |fs| ==> fs[i] != [] && NoSpace(fs[i])
  }

  /** `s` with its leading whitespace removed. */
  function SkipSpace(s: string): (r: string)
    ensures |r| <= |s|
    ensures r == [] || !IsSpace(r[0])
  {
    if s != [] && IsSpace(s[0]) then SkipSpace(s[1..]) else s
  }

  /** The longest prefix of `s` without whitespace. */
  function TakeWord(s: string): (w: string)
    ensures |w| <= |s|
    ensures s != [] && !IsSpace(s[0]) ==> w != []
  {
    if s != [] && !IsSpace(s[0]) then [s[0]] + TakeWord(s[1..]) else []
  }

  /** Go's `strings.Fields`: the maximal runs of non-whitespace characters, in order. */
  function Fields(s: string): seq<string>
    decreases |s|
  {
    var t := SkipSpace(s);
    if t == [] then []
    else
      var w := TakeWord(t);
      var rest := Fields(t[|w|..]);
      [w] + rest
  }

  /** Go's `strings.Join`. */
  function Join(fs: seq<string>, sep: string): (r: string)
    ensures fs != [] ==> |fs[0]| <= |r| && r[..|fs[0]|] == fs[0]
  {
    if fs == [] then ""
    else if |fs| == 1 then fs[0]
    else fs[0] + sep + Join(fs[1..], sep)
  }

  /** The notification text's normalisation: `strings.Join(strings.Fields(s), " ")`. */
  function Collapse(s: string): string {
    Join(Fields(s), " ")
  }

  /** A collapsed string: no leading or trailing whitespace, its only
      whitespace character is the plain space, and no two whitespace
      characters are adjacent. */
  predicate Collapsed(r: string) {
    && (r != [] ==> !IsSpace(r[0]) && !IsSpace(r[|r| - 1]))
    && (forall i :: 0 <= i < |r| && IsSpace(r[i]) ==> r[i] == ' ')
    && (forall i :: 0 <= i < |r| - 1 ==> !IsSpace(r[i]) || !IsSpace(r[i + 1]))
  }

  /** `s` with every whitespace character removed. */
  function Visible(s: string): string {
    if s == [] then [] else (if IsSpace(s[0]) then [] else [s[0]]) + Visible(s[1..])
  }

  function Concat(fs: seq<string>): string {
    if fs == [] then [] else fs[0] + Concat(fs[1..])
  }

  /** The fields of each string of `parts`, in order. */
  function FlatFields(parts: seq<string>): seq<string> {
    if parts == [] then [] else Fields(parts[0]) + FlatFields(parts[1..])
  }

  // ---------------------------------------------------------------------
  // The scanning helpers

  /** SkipSpace drops a prefix made only of whitespace. */
  lemma {:induction false} SkipSpaceDropsSpaces(s: string)
    ensures var r := SkipSpace(s);
      && r == s[|s| - |r|..]
      && forall i :: 0 <= i < |s| - |r| ==> IsSpace(s[i])
  {
    if s != [] && IsSpace(s[0]) {
      SkipSpaceDropsSpaces(s[1..]);
    }
  }

  /** TakeWord takes a whitespace-free prefix and stops at whitespace or at the end. */
  lemma {:induction false} TakeWordIsWord(s: string)
    ensures var w := TakeWord(s);
      && w == s[..|w|]
      && NoSpace(w)
      && (|w| == |s| || IsSpace(s[|w|]))
  {
    if s != [] && !IsSpace(s[0]) {
      TakeWordIsWord(s[1..]);
      var v := TakeWord(s[1..]);
      assert TakeWord(s) == [s[0]] + v;
      assert forall i :: 0 < i <= |v| ==> ([s[0]] + v)[i] == v[i - 1];
    }
  }

  /** A word ends at the first whitespace character after it. */
  lemma {:induction false} TakeWordStops(w: string, t: string)
    requires NoSpace(w)
    requires t == [] || IsSpace(t[0])
    ensures TakeWord(w + t) == w
  {
    if w != [] {
      assert (w + t)[1..] == w[1..] + t;
      TakeWordStops(w[1..], t);
    } else {
      assert w + t == t;
    }
  }

  lemma ValidFieldsTail(fs: seq<string>)
    requires fs != [] && ValidFields(fs)
    ensures ValidFields(fs[1..])
  {
    assert forall i :: 0 <= i < |fs| - 1 ==> fs[1..][i] == fs[i + 1];
  }

  // ---------------------------------------------------------------------
  // Fields

  /** Every field is a non-empty word without whitespace. */
  lemma {:induction false} FieldsValid(s: string)
    ensures ValidFields(Fields(s))
    decreases |s|
  {
    var t := SkipSpace(s);
    if t != [] {
      var w := TakeWord(t);
      TakeWordIsWord(t);
      FieldsValid(t[|w|..]);
      var rest := Fields(t[|w|..]);
      assert Fields(s) == [w] + rest;
      assert forall i :: 0 < i <= |rest| ==> ([w] + rest)[i] == rest[i - 1];
    }
  }

  /** Leading whitespace does not change the fields. */
  lemma FieldsLeadingSpace(c: char, x: string)
    requires IsSpace(c)
    ensures Fields([c] + x) == Fields(x)
  {
    assert ([c] + x)[1..] == x;
    assert SkipSpace([c] + x) == SkipSpace(x);
  }

  /** A word followed by nothing or by whitespace is the first field. */
  lemma FieldsAfterWord(w: string, t: string)
    requires w != [] && NoSpace(w)
    requires t == [] || IsSpace(t[0])
    ensures Fields(w + t) == [w] + Fields(t)
  {
    var s := w + t;
    assert SkipSpace(s) == s by { assert s[0] == w[0]; }
    TakeWordStops(w, t);
    assert s[|w|..] == t;
  }

  /** A single word is its own only field. */
  lemma FieldsOfWord(w: string)
    requires w != [] && NoSpace(w)
    ensures Fields(w) == [w]
  {
    assert w + [] == w;
    FieldsAfterWord(w, []);
  }

  /** A word followed by a space is the first field of what follows it. */
  lemma FieldsCons(w: string, x: string)
    requires w != [] && NoSpace(w)
    ensures Fields(w + " " + x) == [w] + Fields(x)
  {
    assert w + " " + x == w + ([' '] + x);
    FieldsAfterWord(w, [' '] + x);
    FieldsLeadingSpace(' ', x);
  }

  /** A space separates fields: the fields of `a + " " + b` are those of `a`
      followed by those of `b`. */
  lemma {:induction false} FieldsAroundSpace(a: string, b: string)
    ensures Fields(a + " " + b) == Fields(a) + Fields(b)
    decreases |a|
  {
    if a == [] {
      assert a + " " + b == [' '] + b;
      FieldsLeadingSpace(' ', b);
    } else if IsSpace(a[0]) {
      var c, a' := a[0], a[1..];
      calc {
        Fields(a + " " + b);
        { assert a + " " + b == [c] + (a' + " " + b); }
        Fields([c] + (a' + " " + b));
        { FieldsLeadingSpace(c, a' + " " + b); }
        Fields(a' + " " + b);
        { FieldsAroundSpace(a', b); }
        Fields(a') + Fields(b);
        { assert a == [c] + a'; FieldsLeadingSpace(c, a'); }
        Fields(a) + Fields(b);
      }
    } else {
      var w := TakeWord(a);
      TakeWordIsWord(a);
      var a' := a[|w|..];
      var x := a' + " " + b;
      assert IsSpace(x[0]) by { if a' != [] { assert a'[0] == a[|w|]; } }
      calc {
        Fields(a + " " + b);
        { assert a + " " + b == w + x; }
        Fields(w + x);
        { FieldsAfterWord(w, x); }
        [w] + Fields(x);
        { FieldsAroundSpace(a', b); }
        [w] + (Fields(a') + Fields(b));
        ([w] + Fields(a')) + Fields(b);
        { assert a == w + a'; FieldsAfterWord(w, a'); }
        Fields(a) + Fields(b);
      }
    }
  }

  /** The fields of a single-space join are the fields of its parts. */
  lemma {:induction false} FieldsOfJoin(parts: seq<string>)
    ensures Fields(Join(parts, " ")) == FlatFields(parts)
  {
    if |parts| == 1 {
      assert FlatFields(parts) == Fields(parts[0]) + FlatFields([]);
    } else if |parts| > 1 {
      FieldsOfJoin(parts[1..]);
      FieldsAroundSpace(parts[0], Join(parts[1..], " "));
    }
  }

  /** Round trip: splitting the single-space join of valid fields gives the fields back. */
  lemma {:induction false} FieldsJoin(fs: seq<string>)
    requires ValidFields(fs)
    ensures Fields(Join(fs, " ")) == fs
  {
    if |fs| == 1 {
      FieldsOfWord(fs[0]);
    } else if |fs| > 1 {
      ValidFieldsTail(fs);
      var j := Join(fs[1..], " ");
      assert Join(fs, " ") == fs[0] + " " + j;
      FieldsJoin(fs[1..]);
      FieldsCons(fs[0], j);
      assert [fs[0]] + fs[1..] == fs;
    }
  }

  // ---------------------------------------------------------------------
  // Collapse

  /** A word, a space and a non-empty collapsed string make a collapsed string. */
  lemma CollapsedCons(w: string, j: string)
    requires w != [] && NoSpace(w)
    requires j != [] && Collapsed(j)
    ensures Collapsed(w + " " + j)
  {
    var r := w + " " + j;
    forall i | 0 <= i < |r| && IsSpace(r[i]) ensures r[i] == ' ' {
      if i > |w| { assert r[i] == j[i - |w| - 1]; }
    }
    forall i | 0 <= i < |r| - 1 ensures !IsSpace(r[i]) || !IsSpace(r[i + 1]) {
      if i > |w| { assert r[i] == j[i - |w| - 1] && r[i + 1] == j[i - |w|]; }
    }
    assert r[|r| - 1] == j[|j| - 1];
  }

  /** Joining valid fields with single spaces yields a collapsed string. */
  lemma {:induction false} JoinCollapsed(fs: seq<string>)
    requires ValidFields(fs)
    ensures Collapsed(Join(fs, " "))
  {
    if |fs| > 1 {
      ValidFieldsTail(fs);
      var j := Join(fs[1..], " ");
      JoinCollapsed(fs[1..]);
      assert j != [] by { assert fs[1..][0] != []; }
      assert Join(fs, " ") == fs[0] + " " + j;
      CollapsedCons(fs[0], j);
    }
  }

  /** The collapsed text has no leading, trailing or repeated whitespace. */
  lemma CollapseCollapsed(s: string)
    ensures Collapsed(Collapse(s))
  {
    FieldsValid(s);
    JoinCollapsed(Fields(s));
  }

  /** Collapsing twice is collapsing once. */
  lemma CollapseIdempotent(s: string)
    ensures Collapse(Collapse(s)) == Collapse(s)
  {
    FieldsValid(s);
    FieldsJoin(Fields(s));
  }

  lemma JoinCons(w: string, fs: seq<string>, sep: string)
    requires fs != []
    ensures Join([w] + fs, sep) == w + sep + Join(fs, sep)
  {
    assert ([w] + fs)[1..] == fs;
  }

  /** Joining one more string adds a separator and that string at the end. */
  lemma {:induction false} JoinSnoc(fs: seq<string>, x: string, sep: string)
    requires fs != []
    ensures Join(fs + [x], sep) == Join(fs, sep) + sep + x
    decreases |fs|
  {
    if |fs| == 1 {
      assert (fs + [x])[1..] == [x];
    } else {
      assert (fs + [x])[1..] == fs[1..] + [x];
      JoinSnoc(fs[1..], x, sep);
      var a, b := fs[0] + sep, Join(fs[1..], sep);
      assert a + (b + sep + x) == a + b + sep + x;
    }
  }

  /** Joining a prefix one element longer adds a separator and that element. */
  lemma JoinPrefix(fs: seq<string>, k: nat, sep: string)
    requires 0 < k < |fs|
    ensures Join(fs[..k + 1], sep) == Join(fs[..k], sep) + sep + fs[k]
  {
    assert fs[..k + 1] == fs[..k] + [fs[k]];
    JoinSnoc(fs[..k], fs[k], sep);
  }

  /** A suffix of a collapsed string that starts at a non-space character is collapsed. */
  lemma CollapsedSuffix(s: string, k: nat)
    requires Collapsed(s) && k < |s| && !IsSpace(s[k])
    ensures Collapsed(s[k..])
  {
    var rest := s[k..];
    assert forall i :: 0 <= i < |rest| ==> rest[i] == s[k + i];
  }

  /** A collapsed string that is more than one word is its first word, a
      space, and a shorter collapsed string. */
  lemma CollapsedSplit(s: string)
    requires s != [] && Collapsed(s)
    requires |TakeWord(s)| < |s|
    ensures var w := TakeWord(s);
      && w != [] && NoSpace(w)
      && |w| + 1 < |s|
      && s == w + " " + s[|w| + 1..]
      && Collapsed(s[|w| + 1..])
  {
    var w := TakeWord(s);
    TakeWordIsWord(s);
    assert s[|w|] == ' ';
    assert |w| + 1 < |s| by { assert !IsSpace(s[|s| - 1]); }
    assert !IsSpace(s[|w| + 1]);
    CollapsedSuffix(s, |w| + 1);
    assert s == w + " " + s[|w| + 1..] by { assert s == s[..|w|] + [s[|w|]] + s[|w| + 1..]; }
  }

  /** Collapse leaves a string alone exactly when it is already collapsed. */
  lemma {:induction false} CollapseFixesCollapsed(s: string)
    ensures Collapse(s) == s <==> Collapsed(s)
    decreases |s|
  {
    CollapseCollapsed(s);
    if Collapsed(s) && s != [] {
      var w := TakeWord(s);
      if |w| == |s| {
        TakeWordIsWord(s);
        assert w == s;
        FieldsOfWord(s);
      } else {
        CollapsedSplit(s);
        var rest := s[|w| + 1..];
        CollapseFixesCollapsed(rest);
        FieldsCons(w, rest);
        var f := Fields(rest);
        assert f != [] by { assert Join(f, " ") == rest != []; }
        JoinCons(w, f, " ");
      }
    }
  }

  // ---------------------------------------------------------------------
  // Collapse changes only whitespace

  lemma {:induction false} VisibleAppend(a: string, b: string)
    ensures Visible(a + b) == Visible(a) + Visible(b)
    decreases |a|
  {
    if a != [] {
      assert (a + b)[1..] == a[1..] + b;
      VisibleAppend(a[1..], b);
    } else {
      assert a + b == b;
    }
  }

  lemma {:induction false} VisibleOfWord(w: string)
    requires NoSpace(w)
    ensures Visible(w) == w
  {
    if w != [] {
      VisibleOfWord(w[1..]);
    }
  }

  lemma {:induction false} VisibleOfSpaces(p: string)
    requires forall i :: 0 <= i < |p| ==> IsSpace(p[i])
    ensures Visible(p) == []
  {
    if p != [] {
      VisibleOfSpaces(p[1..]);
    }
  }

  /** The fields hold every non-whitespace character of `s`, in order. */
  /** Skipping leading whitespace drops no visible character. */
  lemma VisibleAfterSkip(s: string)
    ensures Visible(SkipSpace(s)) == Visible(s)
  {
    var t := SkipSpace(s);
    SkipSpaceDropsSpaces(s);
    var k := |s| - |t|;
    assert s == s[..k] + t;
    VisibleAppend(s[..k], t);
    VisibleOfSpaces(s[..k]);
  }

  lemma {:induction false} FieldsVisible(s: string)
    ensures Concat(Fields(s)) == Visible(s)
    decreases |s|
  {
    var t := SkipSpace(s);
    VisibleAfterSkip(s);
    if t == [] {
      assert Fields(s) == [];
    } else {
      var w := TakeWord(t);
      TakeWordIsWord(t);
      var rest := t[|w|..];
      assert t == w + rest;
      VisibleAppend(w, rest);
      VisibleOfWord(w);
      FieldsVisible(rest);
      var fs := [w] + Fields(rest);
      assert Fields(s) == fs;
      assert fs[1..] == Fields(rest);
      assert Concat(fs) == w + Concat(Fields(rest));
    }
  }

  /** Joining with single spaces adds only whitespace. */
  lemma {:induction false} JoinVisible(fs: seq<string>)
    requires ValidFields(fs)
    ensures Visible(Join(fs, " ")) == Concat(fs)
  {
    if |fs| == 1 {
      VisibleOfWord(fs[0]);
      assert Concat(fs) == fs[0] + Concat([]);
    } else if |fs| > 1 {
      ValidFieldsTail(fs);
      JoinVisible(fs[1..]);
      var j := Join(fs[1..], " ");
      VisibleOfWord(fs[0]);
      VisibleAppend(fs[0], " " + j);
      VisibleAppend(" ", j);
      assert fs[0] + " " + j == fs[0] + (" " + j);
    }
  }

  /** Collapsing changes only whitespace: the non-whitespace characters stay, in order. */
  lemma CollapseKeepsVisible(s: string)
    ensures Visible(Collapse(s)) == Visible(s)
  {
    FieldsVisible(s);
    FieldsValid(s);
    JoinVisible(Fields(s));
  }
}
