/**
 * The `slugify` template filter (flaskr/jinja_filters.py): keep the ASCII
 * characters, delete everything but word characters, whitespace and `-`,
 * strip surrounding whitespace, lower-case, and turn each run of
 * whitespace, `_` and `-` into one `-`.
 */
module JinjaFilters {
  import opened Text

  predicate IsAscii(c: char) { (c as int) < 128 }

  /** Python's `str.isspace` on ASCII, which `\s` and `str.strip()` both use: `\t`..`\r`, `\x1c`..`\x1f` and space. */
  predicate IsSpace(c: char) {
    var n := c as int;
    n == 32 || 9 <= n <= 13 || 28 <= n <= 31
  }

  /** `\w` on ASCII text. */
  predicate IsWordChar(c: char) { IsUpper(c) || IsLower(c) || IsDigit(c) || c == '_' }

  /** The characters `[\w\s-]` that the first substitution keeps. */
  predicate IsKept(c: char) { IsWordChar(c) || IsSpace(c) || c == '-' }

  /** The characters `[\s_-]` whose runs the second substitution collapses. */
  predicate IsSep(c: char) { IsSpace(c) || c == '_' || c == '-' }

  /** The characters a slug is made of. */
  predicate IsSlugChar(c: char) { IsLower(c) || IsDigit(c) || c == '-' }

  predicate NoDoubleDash(s: string) {
    forall i :: 0 <= i < |s| - 1 ==> !(s[i] == '-' && s[i + 1] == '-')
  }

  /** `.encode('ascii', 'ignore')` decoded back: the non-ASCII characters are dropped. */
  function AsciiOnly(s: string): (r: string)
    ensures |r| <= |s|
    ensures forall i :: 0 <= i < |r| ==> IsAscii(r[i])
    ensures (forall i :: 0 <= i < |s| ==> IsAscii(s[i])) ==> r == s
    decreases |s|
  {
    if s == [] then []
    else (if IsAscii(s[0]) then [s[0]] else []) + AsciiOnly(s[1..])
  }

  /** `re.sub(r'[^\w\s-]', '', value)` on ASCII text. */
  function KeepSlugSource(s: string): (r: string)
    ensures |r| <= |s|
    ensures forall i :: 0 <= i < |r| ==> IsKept(r[i])
    ensures (forall i :: 0 <= i < |s| ==> IsKept(s[i])) ==> r == s
    decreases |s|
  {
    if s == [] then []
    else (if IsKept(s[0]) then [s[0]] else []) + KeepSlugSource(s[1..])
  }

  /** `str.lstrip()`: the suffix left after the leading whitespace. */
  function StripLeft(s: string): (r: string)
    ensures |r| <= |s| && r == s[|s| - |r|..]
    ensures forall i :: 0 <= i < |s| - |r| ==> IsSpace(s[i])
    ensures |r| > 0 ==> !IsSpace(r[0])
    decreases |s|
  {
    if s != [] && IsSpace(s[0]) then StripLeft(s[1..]) else s
  }

  /** `str.rstrip()`: the prefix left before the trailing whitespace. */
  function StripRight(s: string): (r: string)
    ensures |r| <= |s| && r == s[..|r|]
    ensures forall i :: |r| <= i < |s| ==> IsSpace(s[i])
    ensures |r| > 0 ==> !IsSpace(r[|r| - 1])
    decreases |s|
  {
    if s != [] && IsSpace(s[|s| - 1]) then StripRight(s[..|s| - 1]) else s
  }

  /** `str.strip()`. */
  function Strip(s: string): string {
    StripRight(StripLeft(s))
  }

  function LowerChar(c: char): char {
    if IsUpper(c) then (c as int + 32) as char else c
  }

  /** `str.lower()` on ASCII text. */
  function Lower(s: string): (r: string)
    ensures |r| == |s|
    ensures forall i :: 0 <= i < |s| ==> r[i] == LowerChar(s[i])
    decreases |s|
  {
    if s == [] then [] else [LowerChar(s[0])] + Lower(s[1..])
  }

  /** The text after the run of separators it starts with. */
  function DropSeps(s: string): (r: string)
    ensures |r| <= |s| && r == s[|s| - |r|..]
    ensures forall i :: 0 <= i < |s| - |r| ==> IsSep(s[i])
    ensures |r| > 0 ==> !IsSep(r[0])
    decreases |s|
  {
    if s != [] && IsSep(s[0]) then DropSeps(s[1..]) else s
  }

  /**
   * `re.sub(r'[\s_-]+', '-', value)`: each maximal run of separators
   * becomes one `-`, every other character is copied.
   */
  function Collapse(s: string): (r: string)
    ensures |r| <= |s|
    ensures (|r| > 0 && r[0] == '-') <==> (|s| > 0 && IsSep(s[0]))
    decreases |s|
  {
    if s == [] then []
    else if IsSep(s[0]) then ['-'] + Collapse(DropSeps(s[1..]))
    else [s[0]] + Collapse(s[1..])
  }

  predicate LowerDigitOrSep(s: string) {
    forall i :: 0 <= i < |s| ==> IsLower(s[i]) || IsDigit(s[i]) || IsSep(s[i])
  }

  lemma {:induction false} TailKeepsClass(s: string)
    requires s != [] && LowerDigitOrSep(s)
    ensures LowerDigitOrSep(s[1..])
  {
    forall j | 0 <= j < |s| - 1
      ensures IsLower(s[1..][j]) || IsDigit(s[1..][j]) || IsSep(s[1..][j])
    {
      assert s[1..][j] == s[j + 1];
    }
  }

  lemma {:induction false} DropSepsKeepsClass(s: string)
    requires LowerDigitOrSep(s)
    ensures LowerDigitOrSep(DropSeps(s))
    decreases |s|
  {
    if s != [] && IsSep(s[0]) {
      TailKeepsClass(s);
      DropSepsKeepsClass(s[1..]);
    }
  }

  /** Collapsing text of lower-case letters, digits and separators leaves slug characters. */
  lemma {:induction false} CollapseChars(s: string)
    requires LowerDigitOrSep(s)
    ensures AllSlugChars(Collapse(s))
    decreases |s|
  {
    if s != [] {
      TailKeepsClass(s);
      if IsSep(s[0]) {
        var t := DropSeps(s[1..]);
        DropSepsKeepsClass(s[1..]);
        CollapseChars(t);
        assert Collapse(s) == ['-'] + Collapse(t);
      } else {
        CollapseChars(s[1..]);
        assert Collapse(s) == [s[0]] + Collapse(s[1..]);
      }
    }
  }

  /** A run always collapses to a single `-`, so no two `-` end up side by side. */
  lemma {:induction false} CollapseNoDoubleDash(s: string)
    ensures NoDoubleDash(Collapse(s))
    decreases |s|
  {
    if s != [] {
      if IsSep(s[0]) {
        var t := DropSeps(s[1..]);
        CollapseNoDoubleDash(t);
        assert Collapse(s) == ['-'] + Collapse(t);
      } else {
        CollapseNoDoubleDash(s[1..]);
        assert Collapse(s) == [s[0]] + Collapse(s[1..]);
      }
    }
  }

  /** Text whose only separators are single `-` is left as it is. */
  lemma {:induction false} CollapseOfCollapsed(s: string)
    requires forall i :: 0 <= i < |s| ==> s[i] == '-' || !IsSep(s[i])
    requires NoDoubleDash(s)
    ensures Collapse(s) == s
    decreases |s|
  {
    if s != [] {
      CollapseOfCollapsed(s[1..]);
      if IsSep(s[0]) {
        assert DropSeps(s[1..]) == s[1..];
      }
      assert [s[0]] + s[1..] == s;
    }
  }

  /** Stripping only cuts characters off the ends. */
  lemma StripKeepsKept(s: string)
    requires forall i :: 0 <= i < |s| ==> IsKept(s[i])
    ensures forall i :: 0 <= i < |Strip(s)| ==> IsKept(Strip(s)[i])
  {
    var left := StripLeft(s);
    assert forall j :: 0 <= j < |left| ==> left[j] == s[|s| - |left| + j];
    var r := StripRight(left);
    assert forall j :: 0 <= j < |r| ==> r[j] == left[j];
  }

  /** Lower-casing kept characters leaves lower-case letters, digits and separators. */
  lemma LowerOfKept(s: string)
    requires forall i :: 0 <= i < |s| ==> IsKept(s[i])
    ensures LowerDigitOrSep(Lower(s))
  {
  }

  /** `slugify(value)` from the ASCII conversion on; the NFKD step before it is not modelled. */
  function Slugify(value: string): string {
    Collapse(Lower(Strip(KeepSlugSource(AsciiOnly(value)))))
  }

  /**
   * A slug is made of lower-case letters, digits and `-`, never has two `-`
   * in a row, and is no longer than the text it came from.
   */
  lemma SlugifyShape(value: string)
    ensures var r := Slugify(value);
      |r| <= |value| && AllSlugChars(r) && NoDoubleDash(r)
  {
    var kept := KeepSlugSource(AsciiOnly(value));
    StripKeepsKept(kept);
    LowerOfKept(Strip(kept));
    CollapseChars(Lower(Strip(kept)));
    CollapseNoDoubleDash(Lower(Strip(kept)));
  }

  lemma {:induction false} AsciiOnlyConcat(a: string, b: string)
    ensures AsciiOnly(a + b) == AsciiOnly(a) + AsciiOnly(b)
    decreases |a|
  {
    if a != [] {
      assert (a + b)[0] == a[0] && (a + b)[1..] == a[1..] + b;
      AsciiOnlyConcat(a[1..], b);
      var h := if IsAscii(a[0]) then [a[0]] else [];
      assert AsciiOnly(a + b) == h + AsciiOnly(a[1..] + b);
      assert AsciiOnly(a) == h + AsciiOnly(a[1..]);
    } else {
      assert a + b == b;
    }
  }

  lemma {:induction false} KeepSlugSourceConcat(a: string, b: string)
    ensures KeepSlugSource(a + b) == KeepSlugSource(a) + KeepSlugSource(b)
    decreases |a|
  {
    if a != [] {
      assert (a + b)[0] == a[0] && (a + b)[1..] == a[1..] + b;
      KeepSlugSourceConcat(a[1..], b);
      var h := if IsKept(a[0]) then [a[0]] else [];
      assert KeepSlugSource(a + b) == h + KeepSlugSource(a[1..] + b);
      assert KeepSlugSource(a) == h + KeepSlugSource(a[1..]);
    } else {
      assert a + b == b;
    }
  }

  predicate AllSlugChars(r: string) { forall i :: 0 <= i < |r| ==> IsSlugChar(r[i]) }

  lemma PassesThroughFilters(r: string)
    requires AllSlugChars(r)
    ensures KeepSlugSource(AsciiOnly(r)) == r
  {
    assert forall i :: 0 <= i < |r| ==> IsAscii(r[i]);
    assert AsciiOnly(r) == r;
    assert forall i :: 0 <= i < |r| ==> IsKept(r[i]);
  }

  lemma PassesThroughStrip(r: string)
    requires AllSlugChars(r)
    ensures Strip(r) == r
  {
    if r != [] {
      assert !IsSpace(r[0]) && !IsSpace(r[|r| - 1]);
      assert StripLeft(r) == r;
    }
  }

  lemma PassesThroughLower(r: string)
    requires AllSlugChars(r)
    ensures Lower(r) == r
  {
    assert forall i :: 0 <= i < |r| ==> Lower(r)[i] == r[i];
  }

  lemma PassesThroughCollapse(r: string)
    requires AllSlugChars(r)
    requires NoDoubleDash(r)
    ensures Collapse(r) == r
  {
    assert forall i :: 0 <= i < |r| ==> r[i] == '-' || !IsSep(r[i]);
    CollapseOfCollapsed(r);
  }

  lemma SlugifyOfUnchanged(r: string)
    requires KeepSlugSource(AsciiOnly(r)) == r
    requires Strip(r) == r
    requires Lower(r) == r
    ensures Slugify(r) == Collapse(r)
  {
  }

  /** A slug is its own slug: every step leaves it as it is. */
  lemma SlugIsFixpoint(r: string)
    requires AllSlugChars(r)
    requires NoDoubleDash(r)
    ensures Slugify(r) == r
  {
    PassesThroughFilters(r);
    PassesThroughStrip(r);
    PassesThroughLower(r);
    SlugifyOfUnchanged(r);
    PassesThroughCollapse(r);
  }

  /** `slugify` is idempotent. */
  lemma SlugifyIdempotent(value: string)
    ensures Slugify(Slugify(value)) == Slugify(value)
  {
    SlugifyShape(value);
    SlugIsFixpoint(Slugify(value));
  }

  /** Texts that agree after the two deleting steps have the same slug. */
  lemma SlugifyOfFiltered(x: string, y: string)
    requires KeepSlugSource(AsciiOnly(x)) == KeepSlugSource(AsciiOnly(y))
    ensures Slugify(x) == Slugify(y)
  {
  }

  lemma FiltersDropChar(a: string, c: char, b: string)
    requires !IsAscii(c) || !IsKept(c)
    ensures KeepSlugSource(AsciiOnly(a + [c] + b)) == KeepSlugSource(AsciiOnly(a + b))
  {
    AsciiOnlyConcat(a + [c], b);
    AsciiOnlyConcat(a, [c]);
    AsciiOnlyConcat(a, b);
    var x, y := AsciiOnly(a), AsciiOnly(b);
    if IsAscii(c) {
      assert AsciiOnly([c]) == [c];
      KeepSlugSourceConcat(x + [c], y);
      KeepSlugSourceConcat(x, [c]);
      KeepSlugSourceConcat(x, y);
      assert KeepSlugSource([c]) == [];
    } else {
      assert AsciiOnly([c]) == [];
      assert AsciiOnly(a + [c] + b) == x + y;
    }
  }

  /**
   * In text after NFKD, a character outside `[\w\s-]`, or one that is not
   * ASCII, is deleted before anything else looks at its neighbours.
   */
  lemma DroppedCharIgnored(a: string, c: char, b: string)
    requires !IsAscii(c) || !IsKept(c)
    ensures Slugify(a + [c] + b) == Slugify(a + b)
  {
    FiltersDropChar(a, c, b);
    SlugifyOfFiltered(a + [c] + b, a + b);
  }

  /** Two slug characters are a slug of their own. */
  lemma TwoCharSlug(p: char, q: char)
    requires IsLower(p) || IsDigit(p)
    requires IsLower(q) || IsDigit(q)
    ensures Slugify([p] + [q]) == [p] + [q]
  {
    assert AllSlugChars([p] + [q]);
    SlugIsFixpoint([p] + [q]);
  }

  /** `re.sub(r'[^\w\s-]', '', ...)` deletes the `!` of `a!b` and the like. */
  lemma PunctuationDeleted(p: char, q: char)
    requires IsLower(p) || IsDigit(p)
    requires IsLower(q) || IsDigit(q)
    ensures Slugify([p] + ['!'] + [q]) == [p] + [q]
  {
    DroppedCharIgnored([p], '!', [q]);
    TwoCharSlug(p, q);
  }

  predicate AllSpace(w: string) { forall i :: 0 <= i < |w| ==> IsSpace(w[i]) }

  lemma {:induction false} StripLeftSpaces(w: string, x: string)
    requires AllSpace(w)
    ensures StripLeft(w + x) == StripLeft(x)
    decreases |w|
  {
    if w != [] {
      assert (w + x)[0] == w[0] && (w + x)[1..] == w[1..] + x;
      StripLeftSpaces(w[1..], x);
    } else {
      assert w + x == x;
    }
  }

  lemma {:induction false} StripRightSpaces(x: string, w: string)
    requires AllSpace(w)
    ensures StripRight(x + w) == StripRight(x)
    decreases |w|
  {
    if w != [] {
      var v := w[..|w| - 1];
      assert (x + w)[|x + w| - 1] == w[|w| - 1];
      assert (x + w)[..|x + w| - 1] == x + v;
      StripRightSpaces(x, v);
      assert StripRight(x + w) == StripRight(x + v);
    } else {
      assert x + w == x;
    }
  }

  /** Once the text has started, what follows does not change `lstrip`. */
  lemma {:induction false} StripLeftThenAppend(x: string, y: string)
    requires !AllSpace(x)
    ensures StripLeft(x + y) == StripLeft(x) + y
    decreases |x|
  {
    if IsSpace(x[0]) {
      assert (x + y)[0] == x[0] && (x + y)[1..] == x[1..] + y;
      assert !AllSpace(x[1..]) by {
        var i :| 0 <= i < |x| && !IsSpace(x[i]);
        assert x[1..][i - 1] == x[i];
      }
      StripLeftThenAppend(x[1..], y);
    }
  }

  lemma {:induction false} StripLeftOfSpaces(w: string)
    requires AllSpace(w)
    ensures StripLeft(w) == []
    decreases |w|
  {
    if w != [] {
      assert AllSpace(w[1..]) by {
        assert forall j :: 0 <= j < |w| - 1 ==> w[1..][j] == w[j + 1];
      }
      StripLeftOfSpaces(w[1..]);
    }
  }

  /** Whitespace around the text changes nothing: `strip` removes it. */
  lemma StripSurrounding(w1: string, x: string, w2: string)
    requires AllSpace(w1) && AllSpace(w2)
    ensures Strip(w1 + x + w2) == Strip(x)
  {
    assert w1 + x + w2 == w1 + (x + w2);
    StripLeftSpaces(w1, x + w2);
    if AllSpace(x) {
      assert AllSpace(x + w2) by {
        assert forall j :: 0 <= j < |x + w2| ==> (x + w2)[j] == if j < |x| then x[j] else w2[j - |x|];
      }
      StripLeftOfSpaces(x + w2);
      StripLeftOfSpaces(x);
    } else {
      StripLeftThenAppend(x, w2);
      StripRightSpaces(StripLeft(x), w2);
    }
  }

  /** Surrounding whitespace is stripped before runs are collapsed, so it leaves no `-`. */
  lemma SurroundingSpaceIgnored(w1: string, value: string, w2: string)
    requires AllSpace(w1) && AllSpace(w2)
    ensures Slugify(w1 + value + w2) == Slugify(value)
  {
    AsciiOnlyConcat(w1 + value, w2);
    AsciiOnlyConcat(w1, value);
    var v := AsciiOnly(value);
    assert AsciiOnly(w1) == w1 && AsciiOnly(w2) == w2;
    KeepSlugSourceConcat(w1 + v, w2);
    KeepSlugSourceConcat(w1, v);
    assert KeepSlugSource(w1) == w1 && KeepSlugSource(w2) == w2;
    StripSurrounding(w1, KeepSlugSource(v), w2);
  }

  /** A leading `_` or `-` is not whitespace, so it survives `strip` and becomes a leading `-`. */
  lemma LeadingSeparatorSurvives(value: string)
    requires |value| > 0 && (value[0] == '_' || value[0] == '-')
    ensures |Slugify(value)| > 0 && Slugify(value)[0] == '-'
  {
    var kept := KeepSlugSource(AsciiOnly(value));
    assert AsciiOnly(value)[0] == value[0];
    assert kept[0] == value[0];
    assert StripLeft(kept) == kept;
    var stripped := StripRight(kept);
    assert |stripped| > 0;
    assert Lower(stripped)[0] == value[0];
  }

  predicate AllSeps(w: string) { forall i :: 0 <= i < |w| ==> IsSep(w[i]) }

  /** A run of separators in front of text that does not start with one is dropped whole. */
  lemma {:induction false} DropSepsOfRun(w: string, y: string)
    requires AllSeps(w)
    requires y == [] || !IsSep(y[0])
    ensures DropSeps(w + y) == y
    decreases |w|
  {
    if w != [] {
      assert (w + y)[0] == w[0] && (w + y)[1..] == w[1..] + y;
      assert AllSeps(w[1..]) by {
        assert forall j :: 0 <= j < |w| - 1 ==> w[1..][j] == w[j + 1];
      }
      DropSepsOfRun(w[1..], y);
    } else {
      assert w + y == y;
    }
  }

  /** Text that ends in a non-separator holds the end of its leading run, so what follows does not matter. */
  lemma {:induction false} DropSepsThenAppend(s: string, z: string)
    requires s != [] && !IsSep(s[|s| - 1])
    ensures DropSeps(s + z) == DropSeps(s) + z
    decreases |s|
  {
    assert (s + z)[0] == s[0];
    if IsSep(s[0]) {
      assert (s + z)[1..] == s[1..] + z;
      DropSepsThenAppend(s[1..], z);
    }
  }

  lemma {:induction false} DropSepsKeepsLast(t: string)
    requires t != [] && !IsSep(t[|t| - 1])
    ensures DropSeps(t) != [] && DropSeps(t)[|DropSeps(t)| - 1] == t[|t| - 1]
    decreases |t|
  {
    if IsSep(t[0]) {
      DropSepsKeepsLast(t[1..]);
    }
  }

  lemma ConsSplit(x: string, z: string)
    requires x != []
    ensures x == [x[0]] + x[1..] && x + z == [x[0]] + (x[1..] + z)
  {
  }

  lemma AppendAssoc(a: string, b: string, c: string)
    ensures a + (b + c) == (a + b) + c
  {
  }

  lemma CollapseSepCons(c: char, u: string)
    requires IsSep(c)
    ensures Collapse([c] + u) == ['-'] + Collapse(DropSeps(u))
  {
    assert ([c] + u)[1..] == u;
  }

  lemma CollapseCopyCons(c: char, u: string)
    requires !IsSep(c)
    ensures Collapse([c] + u) == [c] + Collapse(u)
  {
    assert ([c] + u)[1..] == u;
  }

  lemma CollapseSingle(c: char)
    requires !IsSep(c)
    ensures Collapse([c]) == [c]
  {
    assert [c][1..] == [];
  }

  /**
   * Text that ends in a non-separator closes its last run, so collapsing
   * it and what follows is collapsing each.
   */
  lemma {:induction false} CollapseAppend(x: string, z: string)
    requires x == [] || !IsSep(x[|x| - 1])
    ensures Collapse(x + z) == Collapse(x) + Collapse(z)
    decreases |x|, 1
  {
    if x == [] {
      assert x + z == z;
    } else if IsSep(x[0]) {
      CollapseAppendSep(x, z);
    } else {
      var c, t := x[0], x[1..];
      ConsSplit(x, z);
      CollapseAppend(t, z);
      CollapseCopyCons(c, t + z);
      CollapseCopyCons(c, t);
      AppendAssoc([c], Collapse(t), Collapse(z));
    }
  }

  lemma {:induction false} CollapseAppendSep(x: string, z: string)
    requires x != [] && IsSep(x[0]) && !IsSep(x[|x| - 1])
    ensures Collapse(x + z) == Collapse(x) + Collapse(z)
    decreases |x|, 0
  {
    var c, t := x[0], x[1..];
    ConsSplit(x, z);
    DropSepsKeepsLast(t);
    DropSepsThenAppend(t, z);
    var d := DropSeps(t);
    CollapseAppend(d, z);
    CollapseSepCons(c, t + z);
    CollapseSepCons(c, t);
    AppendAssoc(['-'], Collapse(d), Collapse(z));
  }
  /**
   * `[\s_-]+` is greedy: a whole run of separators between two other
   * characters becomes exactly one `-`.
   */
  lemma CollapseRun(x: string, w: string, y: string)
    requires x == [] || !IsSep(x[|x| - 1])
    requires w != [] && AllSeps(w)
    requires y == [] || !IsSep(y[0])
    ensures Collapse(x + w + y) == Collapse(x) + ['-'] + Collapse(y)
  {
    assert x + w + y == x + (w + y);
    CollapseAppend(x, w + y);
    ConsSplit(w, y);
    var v := w[1..];
    assert AllSeps(v) by {
      assert forall j :: 0 <= j < |v| ==> v[j] == w[j + 1];
    }
    DropSepsOfRun(v, y);
    CollapseSepCons(w[0], v + y);
    AppendAssoc(Collapse(x), ['-'], Collapse(y));
  }

  /** Text made of slug characters and separators is left alone by the three steps before the collapse. */
  lemma SeparatedPassesThrough(s: string)
    requires LowerDigitOrSep(s)
    requires s != [] && !IsSpace(s[0]) && !IsSpace(s[|s| - 1])
    ensures Slugify(s) == Collapse(s)
  {
    assert forall i :: 0 <= i < |s| ==> IsAscii(s[i]) && IsKept(s[i]);
    assert AsciiOnly(s) == s;
    assert KeepSlugSource(s) == s;
    assert StripLeft(s) == s;
    assert Strip(s) == s;
    assert forall i :: 0 <= i < |s| ==> Lower(s)[i] == s[i];
    assert Lower(s) == s;
  }

  lemma RunBetweenClass(p: char, w: string, q: char)
    requires IsLower(p) || IsDigit(p)
    requires AllSeps(w)
    requires IsLower(q) || IsDigit(q)
    ensures var s := [p] + w + [q];
      LowerDigitOrSep(s) && s[0] == p && s[|s| - 1] == q
  {
    var s := [p] + w + [q];
    forall i | 0 <= i < |s|
      ensures IsLower(s[i]) || IsDigit(s[i]) || IsSep(s[i])
    {
      if 0 < i < |s| - 1 {
        assert s[i] == w[i - 1];
      }
    }
  }

  lemma CollapseBetween(p: char, w: string, q: char)
    requires !IsSep(p) && !IsSep(q)
    requires w != [] && AllSeps(w)
    ensures Collapse([p] + w + [q]) == [p] + ['-'] + [q]
  {
    CollapseRun([p], w, [q]);
    CollapseSingle(p);
    CollapseSingle(q);
  }

  /** `a  b`, `a_b`, `a - b` and every other separator run between two slug characters give `a-b`. */
  lemma SeparatorRunBecomesDash(p: char, w: string, q: char)
    requires IsLower(p) || IsDigit(p)
    requires w != [] && AllSeps(w)
    requires IsLower(q) || IsDigit(q)
    ensures Slugify([p] + w + [q]) == [p] + ['-'] + [q]
  {
    RunBetweenClass(p, w, q);
    SeparatedPassesThrough([p] + w + [q]);
    CollapseBetween(p, w, q);
  }
}
