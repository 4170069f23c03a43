/** The caption of a gallery image, derived from its path (titleFromSrc in
    js/gallery.js). Strings are sequences of Unicode scalar values; every
    character the caption code tests ('/', '.', '_', '-' and JavaScript's
    whitespace) lies in the Basic Multilingual Plane outside the surrogate
    range, so it is one code unit in JavaScript and one character here. */
module Caption {

  /** The characters that String.prototype.trim removes and that the regular
      expression class \s matches: ECMAScript's WhiteSpace (tab, vertical tab,
      form feed, the byte order mark and every space separator) and
      LineTerminator (line feed, carriage return, U+2028, U+2029). */
  predicate IsSpace(c: char)
  {
    c == '\t' || c == '\n' || c == '\U{000B}' || c == '\U{000C}' || c == '\r' ||
    c == ' ' || c == '\U{00A0}' || c == '\U{1680}' || ('\U{2000}' <= c <= '\U{200A}') ||
    c == '\U{2028}' || c == '\U{2029}' || c == '\U{202F}' || c == '\U{205F}' ||
    c == '\U{3000}' || c == '\U{FEFF}'
  }

  /** No two neighbouring characters are both whitespace. */
  predicate NoAdjacentSpaces(s: string)
  {
    forall i :: 0 <= i < |s| - 1 ==> !(IsSpace(s[i]) && IsSpace(s[i + 1]))
  }

  /** The character `c` does not occur in `s`. */
  predicate Lacks(s: string, c: char)
  {
    forall i :: 0 <= i < |s| ==> s[i] != c
  }

  // ---------------------------------------------------------------------
  // The path's last segment

  /** src.split("/").pop(): what follows the last '/', or the whole string
      when it has none. */
  function LastSegment(s: string): (r: string)
    ensures Lacks(r, '/')
    ensures |r| <= |s| && r == s[|s| - |r|..]
    ensures |r| == |s| || s[|s| - |r| - 1] == '/'
  {
    if s == [] || s[|s| - 1] == '/' then []
    else LastSegment(s[..|s| - 1]) + [s[|s| - 1]]
  }

  /** Whatever precedes a '/' has no influence on the last segment. */
  lemma {:induction false} LastSegmentAfterSlash(dir: string, name: string)
    ensures LastSegment(dir + "/" + name) == LastSegment(name)
    decreases |name|
  {
    var s := dir + "/" + name;
    if name == [] {
      assert s[|s| - 1] == '/';
    } else {
      assert s[..|s| - 1] == dir + "/" + name[..|name| - 1];
      assert s[|s| - 1] == name[|name| - 1];
      LastSegmentAfterSlash(dir, name[..|name| - 1]);
    }
  }

  // ---------------------------------------------------------------------
  // Runs of one class of characters

  /** The two character classes whose runs the caption rewrites: /[_-]+/ and /\s+/. */
  datatype RunClass = DashOrUnderscore | Whitespace

  predicate InClass(cls: RunClass, c: char)
  {
    match cls
    case DashOrUnderscore => c == '_' || c == '-'
    case Whitespace => IsSpace(c)
  }

  /** `s` without its leading run of characters of the class. */
  function DropRun(cls: RunClass, s: string): (r: string)
    ensures |r| <= |s| && r == s[|s| - |r|..]
    ensures forall i :: 0 <= i < |s| - |r| ==> InClass(cls, s[i])
    ensures r == [] || !InClass(cls, r[0])
  {
    if s == [] || !InClass(cls, s[0]) then s else DropRun(cls, s[1..])
  }

  /** s.replace(/[_-]+/g, " ") or s.replace(/\s+/g, " "): every maximal run of
      characters of the class becomes a single space; nothing else changes
      (CollapseRunsSplit and CollapseRunsWholeRun, with the empty string left
      empty, determine the result). */
  function CollapseRuns(cls: RunClass, s: string): (r: string)
    ensures forall i :: 0 <= i < |r| ==> r[i] == ' ' || !InClass(cls, r[i])
    ensures forall i :: 0 <= i < |r| - 1 ==> !(InClass(cls, r[i]) && InClass(cls, r[i + 1]))
    ensures forall c :: c != ' ' && Lacks(s, c) ==> Lacks(r, c)
    ensures forall c :: c != ' ' && InClass(cls, c) ==> Lacks(r, c)
    ensures (forall i :: 0 <= i < |s| ==> !InClass(cls, s[i])) ==> r == s
    ensures s != [] ==> r != [] && r[0] == (if InClass(cls, s[0]) then ' ' else s[0])
    decreases |s|
  {
    if s == [] then []
    else if InClass(cls, s[0]) then
      var rest := DropRun(cls, s);
      assert forall c :: Lacks(s, c) ==> Lacks(rest, c) by {
        forall c | Lacks(s, c) ensures Lacks(rest, c) {
          assert forall i :: 0 <= i < |rest| ==> rest[i] == s[|s| - |rest| + i];
        }
      }
      [' '] + CollapseRuns(cls, rest)
    else
      assert forall c :: Lacks(s, c) ==> Lacks(s[1..], c) by {
        forall c | Lacks(s, c) ensures Lacks(s[1..], c) {
          assert forall i :: 0 <= i < |s| - 1 ==> s[1..][i] == s[i + 1];
        }
      }
      [s[0]] + CollapseRuns(cls, s[1..])
  }

  /** Dropping a leading run stops at the first character outside the class. */
  lemma {:induction false} DropRunSplit(cls: RunClass, a: string, c: char, b: string)
    requires !InClass(cls, c)
    ensures DropRun(cls, a + [c] + b) == DropRun(cls, a) + [c] + b
    decreases |a|
  {
    if a != [] {
      assert (a + [c] + b)[0] == a[0];
      if InClass(cls, a[0]) {
        assert (a + [c] + b)[1..] == a[1..] + [c] + b;
        DropRunSplit(cls, a[1..], c, b);
      }
    }
  }

  /** Regrouping a concatenation of strings around one character. */
  lemma ConsAssoc(h: char, front: string, c: char, tail: string)
    ensures [h] + (front + [c] + tail) == ([h] + front) + [c] + tail
  {
  }

  /** A character outside the class splits the collapse in two: the parts on
      either side are collapsed on their own and the character is kept. */
  lemma {:induction false} CollapseRunsSplit(cls: RunClass, a: string, c: char, b: string)
    requires !InClass(cls, c)
    ensures CollapseRuns(cls, a + [c] + b) == CollapseRuns(cls, a) + [c] + CollapseRuns(cls, b)
    decreases |a|
  {
    var s := a + [c] + b;
    var tail := CollapseRuns(cls, b);
    if a == [] {
      assert s == [c] + b && s[1..] == b;
      assert CollapseRuns(cls, s) == [c] + tail;
      assert CollapseRuns(cls, a) + [c] + tail == [c] + tail;
    } else if InClass(cls, a[0]) {
      assert s[0] == a[0];
      var rest := DropRun(cls, a);
      assert rest == DropRun(cls, a[1..]);
      DropRunSplit(cls, a, c, b);
      assert CollapseRuns(cls, s) == [' '] + CollapseRuns(cls, rest + [c] + b);
      var front := CollapseRuns(cls, rest);
      assert CollapseRuns(cls, a) == [' '] + front;
      CollapseRunsSplit(cls, rest, c, b);
      ConsAssoc(' ', front, c, tail);
    } else {
      assert s[0] == a[0] && s[1..] == a[1..] + [c] + b;
      assert CollapseRuns(cls, s) == [a[0]] + CollapseRuns(cls, a[1..] + [c] + b);
      var front := CollapseRuns(cls, a[1..]);
      assert CollapseRuns(cls, a) == [a[0]] + front;
      CollapseRunsSplit(cls, a[1..], c, b);
      ConsAssoc(a[0], front, c, tail);
    }
  }

  /** A non-empty string made only of class characters is one run: it becomes
      a single space. */
  lemma CollapseRunsWholeRun(cls: RunClass, s: string)
    requires s != [] && forall i :: 0 <= i < |s| ==> InClass(cls, s[i])
    ensures CollapseRuns(cls, s) == " "
  {
    assert DropRun(cls, s) == [];
  }

  /** A string whose class characters are all lone spaces is left as it is. */
  lemma {:induction false} CollapseRunsFixedPoint(cls: RunClass, s: string)
    requires forall i :: 0 <= i < |s| && InClass(cls, s[i]) ==> s[i] == ' '
    requires forall i :: 0 <= i < |s| - 1 ==> !(InClass(cls, s[i]) && InClass(cls, s[i + 1]))
    ensures CollapseRuns(cls, s) == s
    decreases |s|
  {
    if s != [] {
      if InClass(cls, s[0]) {
        assert DropRun(cls, s) == s[1..] by {
          assert s[1..] == [] || !InClass(cls, s[1]);
          assert DropRun(cls, s) == DropRun(cls, s[1..]);
        }
      }
      CollapseRunsFixedPoint(cls, s[1..]);
      assert s == [s[0]] + s[1..];
    }
  }

  /** Collapsing whitespace a second time changes nothing. */
  lemma CollapseWhitespaceIdempotent(s: string)
    ensures CollapseRuns(Whitespace, CollapseRuns(Whitespace, s)) == CollapseRuns(Whitespace, s)
  {
    CollapseRunsFixedPoint(Whitespace, CollapseRuns(Whitespace, s));
  }

  // ---------------------------------------------------------------------
  // Trimming

  /** String.prototype.trimStart. */
  function TrimStart(s: string): (r: string)
    ensures |r| <= |s| && r == s[|s| - |r|..]
    ensures forall i :: 0 <= i < |s| - |r| ==> IsSpace(s[i])
    ensures r == [] || !IsSpace(r[0])
  {
    DropRun(Whitespace, s)
  }

  /** String.prototype.trimEnd. */
  function TrimEnd(s: string): (r: string)
    ensures |r| <= |s| && r == s[..|r|]
    ensures forall i :: |r| <= i < |s| ==> IsSpace(s[i])
    ensures r == [] || !IsSpace(r[|r| - 1])
  {
    if s == [] || !IsSpace(s[|s| - 1]) then s else TrimEnd(s[..|s| - 1])
  }

  /** `r` is the part of `s` that starts at `a`, with only whitespace before
      it and after it. */
  predicate TrimmedAt(s: string, r: string, a: int)
  {
    0 <= a <= |s| - |r| && r == s[a..a + |r|] &&
    (forall i :: 0 <= i < a ==> IsSpace(s[i])) &&
    (forall i :: a + |r| <= i < |s| ==> IsSpace(s[i]))
  }

  /** String.prototype.trim: whitespace goes from both ends, the rest stays. */
  function Trim(s: string): (r: string)
    ensures r == [] || (!IsSpace(r[0]) && !IsSpace(r[|r| - 1]))
    ensures (s == [] || (!IsSpace(s[0]) && !IsSpace(s[|s| - 1]))) ==> r == s
    ensures forall c :: Lacks(s, c) ==> Lacks(r, c)
    ensures NoAdjacentSpaces(s) ==> NoAdjacentSpaces(r)
  {
    var front := TrimStart(s);
    var r := TrimEnd(front);
    assert r != [] ==> r[0] == front[0];
    r
  }

  /** Trim keeps one contiguous part of the string, the one after the leading
      whitespace, with only whitespace before and after it. */
  lemma TrimKeepsMiddle(s: string)
    ensures TrimmedAt(s, Trim(s), |s| - |TrimStart(s)|)
  {
    var front := TrimStart(s);
    var r := TrimEnd(front);
    var a := |s| - |front|;
    assert front == s[a..];
    assert r == front[..|r|];
    forall i | a + |r| <= i < |s|
      ensures IsSpace(s[i])
    {
      assert s[i] == front[i - a];
    }
  }

  // ---------------------------------------------------------------------
  // The extension

  /** The regular expression /\.[^.]+$/ matches at `k`: a '.' followed by at
      least one character, none of them a '.', up to the end of the string. */
  predicate ExtensionAt(s: string, k: int)
  {
    0 <= k < |s| - 1 && s[k] == '.' && forall j :: k < j < |s| ==> s[j] != '.'
  }

  /** The index of the last '.' of `s`, or -1 when it has none. */
  function LastDot(s: string): (k: int)
    ensures -1 <= k < |s|
    ensures k >= 0 ==> s[k] == '.'
    ensures forall j :: k < j < |s| ==> s[j] != '.'
  {
    if s == [] then -1
    else if s[|s| - 1] == '.' then |s| - 1
    else LastDot(s[..|s| - 1])
  }

  /** The pattern can match at one place at most. */
  lemma ExtensionAtUnique(s: string, k1: int, k2: int)
    requires ExtensionAt(s, k1) && ExtensionAt(s, k2)
    ensures k1 == k2
  {
  }

  /** s.replace(/\.[^.]+$/, ""): the final extension goes when there is one;
      otherwise the name is left as it is. */
  function StripExtension(s: string): (r: string)
    ensures |r| <= |s| && r == s[..|r|]
    ensures (exists k :: ExtensionAt(s, k)) ==> ExtensionAt(s, |r|)
    ensures (forall k :: !ExtensionAt(s, k)) ==> r == s
  {
    var k := LastDot(s);
    if 0 <= k < |s| - 1 then
      assert ExtensionAt(s, k);
      s[..k]
    else
      s
  }

  /** A name with a final extension loses it, and only it: "a.b.c" gives "a.b". */
  lemma StripExtensionRemovesLast(base: string, ext: string)
    requires ext != [] && '.' !in ext
    ensures StripExtension(base + "." + ext) == base
  {
    var s := base + "." + ext;
    assert forall j :: |base| < j < |s| ==> s[j] == ext[j - |base| - 1];
    assert ExtensionAt(s, |base|);
    var r := StripExtension(s);
    ExtensionAtUnique(s, |r|, |base|);
  }

  /** A name that ends in '.' has no extension to lose. */
  lemma StripExtensionKeepsTrailingDot(name: string)
    ensures StripExtension(name + ".") == name + "."
  {
    var s := name + ".";
    assert s[|s| - 1] == '.';
  }

  // ---------------------------------------------------------------------
  // The caption

  /** The shape of every caption: no '/', '_' or '-', no whitespace at either
      end, plain spaces only, and never two of them side by side. */
  predicate CaptionShaped(t: string)
  {
    Lacks(t, '/') && Lacks(t, '_') && Lacks(t, '-') &&
    (t == [] || (!IsSpace(t[0]) && !IsSpace(t[|t| - 1]))) &&
    (forall i :: 0 <= i < |t| && IsSpace(t[i]) ==> t[i] == ' ') &&
    NoAdjacentSpaces(t)
  }

  /** The two run replacements leave a name without '/' free of '_' and '-',
      with plain single spaces as its only whitespace. */
  lemma CollapsedName(noExt: string)
    requires Lacks(noExt, '/')
    ensures var single := CollapseRuns(Whitespace, CollapseRuns(DashOrUnderscore, noExt));
      Lacks(single, '/') && Lacks(single, '_') && Lacks(single, '-') &&
      NoAdjacentSpaces(single) &&
      forall i :: 0 <= i < |single| && IsSpace(single[i]) ==> single[i] == ' '
  {
    var spaced := CollapseRuns(DashOrUnderscore, noExt);
    var single := CollapseRuns(Whitespace, spaced);
    assert Lacks(spaced, '/') && Lacks(spaced, '_') && Lacks(spaced, '-');
    forall i | 0 <= i < |single| - 1
      ensures !(IsSpace(single[i]) && IsSpace(single[i + 1]))
    {
      assert !(InClass(Whitespace, single[i]) && InClass(Whitespace, single[i + 1]));
    }
    forall i | 0 <= i < |single| && IsSpace(single[i])
      ensures single[i] == ' '
    {
      assert single[i] == ' ' || !InClass(Whitespace, single[i]);
    }
  }

  /** Trimming a collapsed name gives a caption of the right shape. */
  lemma TrimmedName(single: string)
    requires Lacks(single, '/') && Lacks(single, '_') && Lacks(single, '-')
    requires NoAdjacentSpaces(single)
    requires forall i :: 0 <= i < |single| && IsSpace(single[i]) ==> single[i] == ' '
    ensures CaptionShaped(Trim(single))
  {
    var title := Trim(single);
    forall i | 0 <= i < |title| && IsSpace(title[i])
      ensures title[i] == ' '
    {
      var c := title[i];
      assert c != ' ' ==> Lacks(single, c);
    }
  }

  /** A prefix of a string lacks every character the string lacks. */
  lemma PrefixLacks(s: string, r: string, c: char)
    requires Lacks(s, c) && |r| <= |s| && r == s[..|r|]
    ensures Lacks(r, c)
  {
    assert forall i :: 0 <= i < |r| ==> r[i] == s[i];
  }

  /** titleFromSrc: the last path segment, trimmed, without its extension,
      with runs of '_' and '-' and then runs of whitespace turned into single
      spaces, trimmed again. */
  function TitleFromSrc(src: string): (title: string)
    ensures CaptionShaped(title)
  {
    var file := Trim(LastSegment(src));
    var noExt := StripExtension(file);
    PrefixLacks(file, noExt, '/');
    CollapsedName(noExt);
    var single := CollapseRuns(Whitespace, CollapseRuns(DashOrUnderscore, noExt));
    TrimmedName(single);
    Trim(single)
  }

  /** Only the last segment of the path counts: directories do not change the caption. */
  lemma TitleIgnoresDirectories(dir: string, name: string)
    ensures TitleFromSrc(dir + "/" + name) == TitleFromSrc(name)
  {
    LastSegmentAfterSlash(dir, name);
  }
}
