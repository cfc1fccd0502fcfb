/** The few pieces of Python's `str` that the message layer of main.py relies on:
    `str.split()` with no argument, `" ".join`, `str.strip()`, `str.replace`,
    the `in` operator on strings, `str.lower()` and slicing `s[:n]`. */
module Text {

  /** `c.isspace()` in Python 3: the ASCII controls TAB..CR and FS..US, the space,
      and the Unicode spaces and separators that `str.split()` also splits on. */
  predicate IsWs(c: char) {
    || ('\t' <= c <= '\r')
    || ('\U{1C}' <= c <= ' ')
    || c == '\U{85}' || c == '\U{A0}' || c == '\U{1680}'
    || ('\U{2000}' <= c <= '\U{200A}')
    || c == '\U{2028}' || c == '\U{2029}' || c == '\U{202F}' || c == '\U{205F}'
    || c == '\U{3000}'
  }

  predicate NoWs(s: string) {
    forall k :: 0 <= k < |s| ==> !IsWs(s[k])
  }

  predicate StartsWith(s: string, p: string) {
    |p| <= |s| && s[..|p|] == p
  }

  /** `s[:n]` for a non-negative `n`, on strings and lists alike. */
  function Take<T>(s: seq<T>, n: nat): (r: seq<T>)
    ensures |r| == if |s| <= n then |s| else n
    ensures r == s[..|r|]
  {
    if |s| <= n then s else s[..n]
  }

  /** `sub in s`. */
  function Contains(s: string, sub: string): bool
    decreases |s|
  {
    if |s| < |sub| then false
    else StartsWith(s, sub) || Contains(s[1..], sub)
  }

  /** `sub` occurs in `s` starting at position `i`. */
  predicate OccursAt(s: string, sub: string, i: int) {
    0 <= i <= |s| - |sub| && s[i..i + |sub|] == sub
  }

  /** An occurrence at a known position makes `sub in s` true. */
  lemma ContainsAt(s: string, sub: string, i: int)
    requires OccursAt(s, sub, i)
    ensures Contains(s, sub)
  {
    ContainsIff(s, sub);
  }

  /** `sub` occurs in `a + sub + b` right after `a`. */
  lemma OccursBetween(a: string, sub: string, b: string)
    ensures OccursAt(a + sub + b, sub, |a|)
  {
    var s := a + sub + b;
    assert s[|a|..] == sub + b;
    assert s[|a|..|a| + |sub|] == s[|a|..][..|sub|];
  }

  /** `sub in s` holds exactly when `sub` occurs at some position of `s`. */
  lemma {:induction false} ContainsIff(s: string, sub: string)
    ensures Contains(s, sub) <==> exists i :: OccursAt(s, sub, i)
    decreases |s|
  {
    if |s| < |sub| {
    } else if StartsWith(s, sub) {
      assert OccursAt(s, sub, 0) by {
        assert s[0..|sub|] == s[..|sub|];
      }
    } else {
      ContainsIff(s[1..], sub);
      OccursShift(s, sub);
    }
  }

  /** Past a position where `sub` does not start, the occurrences of `sub`
      are those in the rest of the string. */
  lemma OccursShift(s: string, sub: string)
    requires s != [] && !StartsWith(s, sub)
    ensures (exists i :: OccursAt(s, sub, i)) <==> (exists i :: OccursAt(s[1..], sub, i))
  {
    forall i | OccursAt(s[1..], sub, i)
      ensures OccursAt(s, sub, i + 1)
    {
      SliceOfTail(s, i + 1, |sub|);
    }
    NotAtZero(s, sub);
    forall i | OccursAt(s, sub, i)
      ensures i > 0 && OccursAt(s[1..], sub, i - 1)
    {
      SliceOfTail(s, i, |sub|);
    }
  }

  lemma SliceOfTail<T>(s: seq<T>, i: nat, n: nat)
    requires 1 <= i && i + n <= |s|
    ensures s[i..i + n] == s[1..][i - 1..i - 1 + n]
  {
    var t := s[1..];
    assert t[i - 1..] == s[i..];
    assert t[i - 1..i - 1 + n] == t[i - 1..][..n];
    assert s[i..i + n] == s[i..][..n];
  }

  lemma NotAtZero(s: string, sub: string)
    requires !StartsWith(s, sub)
    ensures !OccursAt(s, sub, 0)
  {
    if |sub| <= |s| {
      assert s[0..|sub|] == s[..|sub|];
    }
  }

  /** A string that lacks one character of `sub` does not contain `sub`. */
  lemma MissingCharNotContained(s: string, sub: string, j: nat)
    requires j < |sub|
    requires forall k :: 0 <= k < |s| ==> s[k] != sub[j]
    ensures !Contains(s, sub)
  {
    ContainsIff(s, sub);
    forall i | 0 <= i <= |s| - |sub|
      ensures !OccursAt(s, sub, i)
    {
      assert s[i..i + |sub|][j] == s[i + j];
    }
  }

  /** `s.replace(pat, rep)`: one left-to-right pass that replaces
      non-overlapping occurrences of a non-empty `pat`. */
  function Replace(s: string, pat: string, rep: string): string
    requires pat != []
    decreases |s|
  {
    if |s| < |pat| then s
    else if StartsWith(s, pat) then rep + Replace(s[|pat|..], pat, rep)
    else [s[0]] + Replace(s[1..], pat, rep)
  }

  /** A string that differs from `p` at position `j` does not start with `p`. */
  lemma Mismatch(t: string, p: string, j: nat)
    requires j < |p| && j < |t| && t[j] != p[j]
    ensures !StartsWith(t, p)
  {
    if |p| <= |t| {
      assert t[..|p|][j] == t[j];
    }
  }

  /** A pattern at the front is replaced, and the pass goes on after it. */
  lemma ReplaceLeading(pat: string, rest: string, rep: string)
    requires pat != []
    requires !Contains(rest, pat)
    ensures Replace(pat + rest, pat, rep) == rep + rest
  {
    var s := pat + rest;
    assert s[..|pat|] == pat && s[|pat|..] == rest;
    ReplaceAbsent(rest, pat, rep);
  }

  /** A prefix in which no occurrence starts is copied as it is. */
  lemma {:induction false} ReplaceKeepsPrefix(p: string, t: string, pat: string, rep: string)
    requires pat != []
    requires forall i :: 0 <= i < |p| ==> !StartsWith((p + t)[i..], pat)
    ensures Replace(p + t, pat, rep) == p + Replace(t, pat, rep)
    decreases |p|
  {
    if p != [] {
      var s := p + t;
      assert s[0..] == s;
      assert s[1..] == p[1..] + t;
      forall i | 0 <= i < |p| - 1
        ensures !StartsWith((p[1..] + t)[i..], pat)
      {
        assert (p[1..] + t)[i..] == s[i + 1..];
      }
      ReplaceKeepsPrefix(p[1..], t, pat, rep);
      assert [s[0]] + (p[1..] + Replace(t, pat, rep)) == p + Replace(t, pat, rep);
    } else {
      assert p + t == t;
    }
  }

  /** A string in which `pat` does not occur comes back unchanged. */
  lemma {:induction false} ReplaceAbsent(s: string, pat: string, rep: string)
    requires pat != []
    requires !Contains(s, pat)
    ensures Replace(s, pat, rep) == s
    decreases |s|
  {
    if |s| >= |pat| {
      ReplaceAbsent(s[1..], pat, rep);
      assert [s[0]] + s[1..] == s;
    }
  }

  /** Deleting occurrences never makes a string longer. */
  lemma {:induction false} ReplaceByEmptyShrinks(s: string, pat: string)
    requires pat != []
    ensures |Replace(s, pat, "")| <= |s|
    decreases |s|
  {
    if |s| >= |pat| {
      if StartsWith(s, pat) {
        ReplaceByEmptyShrinks(s[|pat|..], pat);
      } else {
        ReplaceByEmptyShrinks(s[1..], pat);
      }
    }
  }

  /** With a one-character pattern the pass works character by character. */
  lemma ReplaceCharCons(x: char, rest: string, c: char, rep: string)
    ensures Replace([x] + rest, [c], rep) == (if x == c then rep else [x]) + Replace(rest, [c], rep)
  {
    var s := [x] + rest;
    assert s[1..] == rest;
    assert StartsWith(s, [c]) <==> x == c;
  }

  lemma {:induction false} ReplaceCharConcat(a: string, b: string, c: char, rep: string)
    ensures Replace(a + b, [c], rep) == Replace(a, [c], rep) + Replace(b, [c], rep)
    decreases |a|
  {
    if a == [] {
      assert a + b == b;
    } else {
      var x, tail := a[0], a[1..];
      assert a + b == [x] + (tail + b);
      assert a == [x] + tail;
      ReplaceCharCons(x, tail + b, c, rep);
      ReplaceCharCons(x, tail, c, rep);
      ReplaceCharConcat(tail, b, c, rep);
      var h := if x == c then rep else [x];
      assert Replace(a + b, [c], rep) == h + (Replace(tail, [c], rep) + Replace(b, [c], rep));
    }
  }

  lemma {:induction false} ReplaceCharAbsent(s: string, c: char, rep: string)
    requires forall k :: 0 <= k < |s| ==> s[k] != c
    ensures Replace(s, [c], rep) == s
    decreases |s|
  {
    if s != [] {
      assert s == [s[0]] + s[1..];
      ReplaceCharCons(s[0], s[1..], c, rep);
      ReplaceCharAbsent(s[1..], c, rep);
    }
  }

  // ---------------------------------------------------------------------------
  // str.strip()

  /** `s.lstrip()`: the suffix left after the leading whitespace. */
  function TrimStart(s: string): (r: string)
    ensures |r| <= |s| && r == s[|s| - |r|..]
    ensures forall k :: 0 <= k < |s| - |r| ==> IsWs(s[k])
    ensures r != [] ==> !IsWs(r[0])
    decreases |s|
  {
    if s != [] && IsWs(s[0]) then TrimStart(s[1..]) else s
  }

  /** `s.rstrip()`: the prefix left before the trailing whitespace. */
  function TrimEnd(s: string): (r: string)
    ensures |r| <= |s| && r == s[..|r|]
    ensures forall k :: |r| <= k < |s| ==> IsWs(s[k])
    ensures r != [] ==> !IsWs(r[|r| - 1])
    decreases |s|
  {
    if s != [] && IsWs(s[|s| - 1]) then TrimEnd(s[..|s| - 1]) else s
  }

  /** The number of leading whitespace characters of `s`. */
  function LeadingWs(s: string): nat {
    |s| - |TrimStart(s)|
  }

  /** `s.strip()`: the part of `s` between its leading and trailing whitespace. */
  function Strip(s: string): (r: string)
    ensures LeadingWs(s) + |r| <= |s|
    ensures r == s[LeadingWs(s)..LeadingWs(s) + |r|]
    ensures forall k :: 0 <= k < LeadingWs(s) ==> IsWs(s[k])
    ensures forall k :: LeadingWs(s) + |r| <= k < |s| ==> IsWs(s[k])
    ensures r != [] ==> !IsWs(r[0]) && !IsWs(r[|r| - 1])
    ensures r == [] <==> forall k :: 0 <= k < |s| ==> IsWs(s[k])
  {
    var t := TrimStart(s);
    var r := TrimEnd(t);
    StripSlice(s, t, r);
    StripEmpty(s, t, r);
    assert LeadingWs(s) == |s| - |t|;
    r
  }

  lemma StripSlice(s: string, t: string, r: string)
    requires |t| <= |s| && t == s[|s| - |t|..]
    requires |r| <= |t| && r == t[..|r|]
    requires forall k :: |r| <= k < |t| ==> IsWs(t[k])
    ensures r == s[|s| - |t|..|s| - |t| + |r|]
    ensures forall k :: |s| - |t| + |r| <= k < |s| ==> IsWs(s[k])
    ensures r != [] ==> r[0] == t[0]
  {
    var lead := |s| - |t|;
    forall k | lead + |r| <= k < |s|
      ensures IsWs(s[k])
    {
      assert s[k] == t[k - lead];
    }
  }

  lemma StripEmpty(s: string, t: string, r: string)
    requires |t| <= |s| && t == s[|s| - |t|..]
    requires forall k :: 0 <= k < |s| - |t| ==> IsWs(s[k])
    requires t != [] ==> !IsWs(t[0])
    requires |r| <= |t| && forall k :: |r| <= k < |t| ==> IsWs(t[k])
    ensures r == [] <==> forall k :: 0 <= k < |s| ==> IsWs(s[k])
  {
    assert r == [] ==> t == [];
    assert (forall k :: 0 <= k < |s| ==> IsWs(s[k])) ==> t == [] by {
      if t != [] {
        assert t[0] == s[|s| - |t|];
      }
    }
  }

  /** A string without whitespace at either end is its own `strip()`. */
  lemma StripUnchanged(s: string)
    requires s != [] && !IsWs(s[0]) && !IsWs(s[|s| - 1])
    ensures Strip(s) == s
  {
    assert TrimStart(s) == s;
    assert TrimEnd(s) == s;
  }

  // ---------------------------------------------------------------------------
  // " ".join(s.split())

  /** The longest prefix of `s` without whitespace. */
  function Word(s: string): (w: string)
    ensures |w| <= |s| && w == s[..|w|]
    ensures NoWs(w)
    ensures |w| < |s| ==> IsWs(s[|w|])
    decreases |s|
  {
    if s != [] && !IsWs(s[0]) then [s[0]] + Word(s[1..]) else []
  }

  /** `s.split()`: the maximal runs of non-whitespace characters, in order. */
  function Split(s: string): (ws: seq<string>)
    ensures forall i :: 0 <= i < |ws| ==> ws[i] != [] && NoWs(ws[i])
    decreases |s|
  {
    var t := TrimStart(s);
    if t == [] then []
    else
      var w := Word(t);
      WordOfNonBlank(t);
      var rest := Split(t[|w|..]);
      WordsCons(w, rest);
      [w] + rest
  }

  lemma WordOfNonBlank(t: string)
    requires t != [] && !IsWs(t[0])
    ensures Word(t) != []
  {
  }

  lemma WordsCons(w: string, rest: seq<string>)
    requires w != [] && NoWs(w)
    requires forall i :: 0 <= i < |rest| ==> rest[i] != [] && NoWs(rest[i])
    ensures forall i :: 0 <= i < |[w] + rest| ==> ([w] + rest)[i] != [] && NoWs(([w] + rest)[i])
  {
    forall i | 0 < i < |[w] + rest|
      ensures ([w] + rest)[i] == rest[i - 1]
    {
    }
  }

  /** `sep.join(ws)`. */
  function Join(ws: seq<string>, sep: string): string
    decreases |ws|
  {
    if |ws| == 0 then []
    else if |ws| == 1 then ws[0]
    else ws[0] + sep + Join(ws[1..], sep)
  }

  lemma JoinCons(w: string, ws: seq<string>, sep: string)
    requires ws != []
    ensures Join([w] + ws, sep) == w + sep + Join(ws, sep)
  {
    assert ([w] + ws)[1..] == ws;
  }

  /** A joined non-empty list starts with its first element. */
  lemma {:induction false} JoinStartsWithFirst(ws: seq<string>, sep: string)
    requires ws != []
    ensures StartsWith(Join(ws, sep), ws[0])
  {
    var j := Join(ws, sep);
    if |ws| > 1 {
      assert j == ws[0] + (sep + Join(ws[1..], sep));
    }
    assert j[..|ws[0]|] == ws[0];
  }

  /** `" ".join(s.split())`. */
  function Collapse(s: string): string {
    Join(Split(s), " ")
  }

  /** Only `' '` as whitespace, no leading space, no two adjacent spaces:
      what every prefix of a collapsed string looks like. */
  predicate Normalised(t: string) {
    && (forall k :: 0 <= k < |t| && IsWs(t[k]) ==> t[k] == ' ')
    && (t != [] ==> t[0] != ' ')
    && (forall k :: 0 < k < |t| && t[k] == ' ' ==> t[k - 1] != ' ')
  }

  /** A normalised string that also has no trailing space. */
  predicate Collapsed(t: string) {
    Normalised(t) && (t != [] ==> t[|t| - 1] != ' ')
  }

  lemma NormalisedPrefix(t: string, n: nat)
    requires Normalised(t) && n <= |t|
    ensures Normalised(t[..n])
  {
    var p := t[..n];
    assert forall k :: 0 <= k < n ==> p[k] == t[k];
  }

  lemma CollapsedJoinStep(w: string, rest: string)
    requires w != [] && NoWs(w)
    requires rest != [] && Collapsed(rest)
    ensures Collapsed(w + " " + rest)
  {
    var t := w + " " + rest;
    var n := |w|;
    assert forall k :: 0 <= k < n ==> t[k] == w[k];
    assert t[n] == ' ';
    assert forall k :: n < k < |t| ==> t[k] == rest[k - n - 1];
    assert rest[0] != ' ';
  }

  /** `" ".join(ws)` of whitespace-free non-empty words is collapsed and
      starts with the first word's first character. */
  lemma {:induction false} JoinWordsCollapsed(ws: seq<string>)
    requires forall i :: 0 <= i < |ws| ==> ws[i] != [] && NoWs(ws[i])
    ensures Collapsed(Join(ws, " "))
    ensures ws != [] ==> Join(ws, " ") != [] && Join(ws, " ")[0] == ws[0][0]
    decreases |ws|
  {
    if |ws| == 1 {
      assert !IsWs(ws[0][0]);
    } else if |ws| > 1 {
      JoinWordsCollapsed(ws[1..]);
      assert ws[1..][0] == ws[1];
      assert !IsWs(ws[1][0]);
      CollapsedJoinStep(ws[0], Join(ws[1..], " "));
    }
  }

  /** The collapsed text has no leading or trailing space, no two adjacent
      spaces and no whitespace character other than `' '`. */
  lemma CollapseIsCollapsed(s: string)
    ensures Collapsed(Collapse(s))
  {
    JoinWordsCollapsed(Split(s));
  }

  /** The non-whitespace characters of a string, in order. */
  function Visible(s: string): (r: string)
    ensures |r| <= |s|
    decreases |s|
  {
    if s == [] then []
    else (if IsWs(s[0]) then [] else [s[0]]) + Visible(s[1..])
  }

  lemma {:induction false} VisibleConcat(a: string, b: string)
    ensures Visible(a + b) == Visible(a) + Visible(b)
    decreases |a|
  {
    if a == [] {
      assert a + b == b;
    } else {
      var ab := a + b;
      assert ab[0] == a[0] && ab[1..] == a[1..] + b;
      var head := if IsWs(a[0]) then [] else [a[0]];
      assert Visible(ab) == head + Visible(a[1..] + b);
      VisibleConcat(a[1..], b);
      assert Visible(a) == head + Visible(a[1..]);
    }
  }

  lemma {:induction false} VisibleOfBlank(s: string)
    requires forall k :: 0 <= k < |s| ==> IsWs(s[k])
    ensures Visible(s) == []
    decreases |s|
  {
    if s != [] {
      VisibleOfBlank(s[1..]);
    }
  }

  lemma {:induction false} VisibleOfWord(s: string)
    requires NoWs(s)
    ensures Visible(s) == s
    decreases |s|
  {
    if s != [] {
      VisibleOfWord(s[1..]);
      assert [s[0]] + s[1..] == s;
    }
  }

  /** One step of `s.split()`: skip the leading whitespace, cut off a word. */
  lemma SplitStep(s: string)
    requires TrimStart(s) != []
    ensures Split(s) == [Word(TrimStart(s))] + Split(TrimStart(s)[|Word(TrimStart(s))|..])
  {
  }

  lemma CollapseStep(s: string, w: string, ws: seq<string>)
    requires Split(s) == [w] + ws
    ensures Collapse(s) == if ws == [] then w else w + " " + Join(ws, " ")
  {
    if ws != [] {
      JoinCons(w, ws, " ");
    }
  }

  lemma VisibleJoinStep(w: string, rest: string)
    requires NoWs(w)
    ensures Visible(w + " " + rest) == w + Visible(rest)
  {
    VisibleOfWord(w);
    VisibleOfSpace();
    VisibleAround(w, " ", rest);
  }

  lemma VisibleOfSpace()
    ensures Visible(" ") == []
  {
    var blank := " ";
    assert blank[0] == ' ' && blank[1..] == [];
  }

  lemma VisibleAround(w: string, b: string, rest: string)
    requires Visible(w) == w && Visible(b) == []
    ensures Visible(w + b + rest) == w + Visible(rest)
  {
    VisibleConcat(w, b);
    VisibleConcat(w + b, rest);
    assert w + [] == w;
  }

  lemma VisibleTrimStart(s: string)
    ensures Visible(TrimStart(s)) == Visible(s)
  {
    var t := TrimStart(s);
    var blank := s[..|s| - |t|];
    assert s == blank + t;
    VisibleConcat(blank, t);
    VisibleOfBlank(blank);
  }

  lemma VisibleWordThenRest(t: string)
    ensures Visible(t) == Word(t) + Visible(t[|Word(t)|..])
  {
    var w := Word(t);
    var rest := t[|w|..];
    assert t == w + rest;
    VisibleConcat(w, rest);
    VisibleOfWord(w);
  }

  /** Collapsing whitespace keeps every other character, in order. */
  lemma {:induction false} CollapseKeepsVisible(s: string)
    ensures Visible(Collapse(s)) == Visible(s)
    decreases |s|
  {
    var t := TrimStart(s);
    VisibleTrimStart(s);
    if t == [] {
      assert Split(s) == [];
    } else {
      var w := Word(t);
      var rest := t[|w|..];
      VisibleWordThenRest(t);
      CollapseKeepsVisible(rest);
      SplitStep(s);
      CollapseStep(s, w, Split(rest));
      if Split(rest) != [] {
        VisibleJoinStep(w, Collapse(rest));
      } else {
        VisibleOfWord(w);
        assert Collapse(rest) == [];
      }
    }
  }

  /** The part of a collapsed string after a space is collapsed. */
  lemma CollapsedAfterSpace(t: string, n: nat)
    requires Collapsed(t) && n < |t| && t[n] == ' '
    ensures n + 1 < |t| && Collapsed(t[n + 1..]) && t[n + 1..] != [] && !IsWs(t[n + 1])
  {
    var u := t[n + 1..];
    assert forall k :: 0 <= k < |u| ==> u[k] == t[n + 1 + k];
  }

  lemma CollapsedHasNoLeadingWs(t: string)
    requires Collapsed(t)
    ensures TrimStart(t) == t
  {
    if t != [] {
      assert !IsWs(t[0]);
    }
  }

  /** `split` skips a leading whitespace character. */
  lemma SplitSkipsBlank(r: string)
    requires r != [] && IsWs(r[0])
    ensures Split(r) == Split(r[1..])
  {
  }

  /** A collapsed string with more than one word is its first word, one
      space, and a collapsed remainder. */
  lemma CollapsedSplitStep(t: string)
    requires Collapsed(t) && t != []
    requires |Word(t)| < |t|
    ensures var u := t[|Word(t)| + 1..];
      t == Word(t) + " " + u && Collapsed(u) && u != [] && !IsWs(u[0])
  {
    var w := Word(t);
    var n := |w|;
    CollapsedAfterSpace(t, n);
    var u := t[n + 1..];
    assert t == t[..n] + t[n..];
    assert t[n..] == " " + u;
  }

  /** `split` of a word, a space and text that starts with a non-blank. */
  lemma SplitWordSpace(w: string, u: string)
    requires w != [] && NoWs(w)
    requires u != [] && !IsWs(u[0])
    ensures Split(w + " " + u) == [w] + Split(u) && Split(u) != []
  {
    var r := " " + u;
    var t := w + r;
    assert w + " " + u == t;
    WordOfWordSpace(w, r);
    SplitOfWordThen(t, w);
    assert t[|w|..] == r;
    SplitSkipsBlank(r);
    assert r[1..] == u;
    SplitOfNonBlank(u);
  }

  lemma SplitOfWordThen(t: string, w: string)
    requires t != [] && !IsWs(t[0])
    requires Word(t) == w
    ensures Split(t) == [w] + Split(t[|w|..])
  {
    assert TrimStart(t) == t;
  }

  lemma SplitOfNonBlank(u: string)
    requires u != [] && !IsWs(u[0])
    ensures Split(u) != []
  {
    assert TrimStart(u) == u;
  }

  lemma {:induction false} WordOfWordSpace(w: string, r: string)
    requires NoWs(w)
    requires r != [] && IsWs(r[0])
    ensures Word(w + r) == w
    decreases |w|
  {
    if w == [] {
      assert w + r == r;
    } else {
      assert (w + r)[1..] == w[1..] + r;
      WordOfWordSpace(w[1..], r);
      assert [w[0]] + w[1..] == w;
    }
  }

  /** Collapsing an already collapsed string changes nothing. */
  lemma {:induction false} CollapseIdempotent(t: string)
    requires Collapsed(t)
    ensures Collapse(t) == t
    decreases |t|
  {
    if t != [] {
      var w := Word(t);
      if |w| == |t| {
        CollapsedHasNoLeadingWs(t);
        SplitStep(t);
        assert t[|w|..] == [];
        CollapseStep(t, w, []);
      } else {
        CollapsedSplitStep(t);
        var u := t[|w| + 1..];
        SplitWordSpace(w, u);
        CollapseIdempotent(u);
        CollapseStep(t, w, Split(u));
      }
    }
  }

  /** `split` of text that is all whitespace, the empty text included, has no words. */
  lemma {:induction false} SplitOfBlank(s: string)
    requires forall k :: 0 <= k < |s| ==> IsWs(s[k])
    ensures Split(s) == []
    decreases |s|
  {
    if s != [] {
      SplitSkipsBlank(s);
      SplitOfBlank(s[1..]);
    }
  }

  /** `split` of one word without whitespace is that word. */
  lemma SplitOfWord(w: string)
    requires w != [] && NoWs(w)
    ensures Split(w) == [w]
  {
    SplitWordThen(w, []);
    assert w + [] == w;
    SplitOfBlank([]);
  }

  lemma {:induction false} WordIsWhole(w: string)
    requires NoWs(w)
    ensures Word(w) == w
    decreases |w|
  {
    if w != [] {
      WordIsWhole(w[1..]);
      assert [w[0]] + w[1..] == w;
    }
  }

  /** A word followed by nothing or by whitespace is the first word. */
  lemma SplitWordThen(w: string, r: string)
    requires w != [] && NoWs(w)
    requires r == [] || IsWs(r[0])
    ensures Split(w + r) == [w] + Split(r)
  {
    var t := w + r;
    if r == [] {
      assert t == w;
      WordIsWhole(w);
    } else {
      WordOfWordSpace(w, r);
    }
    assert t[0] == w[0];
    SplitOfWordThen(t, w);
    assert t[|w|..] == r;
  }

  /** Whitespace separates words: the words of `a + b`, where `b` starts with
      whitespace, are those of `a` followed by those of `b`. Together with
      `SplitOfBlank`, `SplitOfWord` and `SplitSkipsBlank` this fixes `split` on
      every input, by induction on its length. */
  lemma {:induction false} SplitAppendWs(a: string, b: string)
    requires b != [] && IsWs(b[0])
    ensures Split(a + b) == Split(a) + Split(b)
    decreases |a|
  {
    if a == [] {
      assert a + b == b;
      SplitOfBlank(a);
    } else if IsWs(a[0]) {
      assert (a + b)[1..] == a[1..] + b;
      SplitSkipsBlank(a + b);
      SplitSkipsBlank(a);
      SplitAppendWs(a[1..], b);
    } else {
      var w := Word(a);
      WordOfNonBlank(a);
      var u := a[|w|..];
      assert a == w + u;
      SplitWordThen(w, u);
      var ub := u + b;
      assert a + b == w + ub;
      assert ub[0] == if u == [] then b[0] else u[0];
      SplitWordThen(w, ub);
      SplitAppendWs(u, b);
      ConsAppend(w, Split(u), Split(b));
    }
  }

  lemma ConsAppend<T>(w: T, x: seq<T>, y: seq<T>)
    ensures [w] + (x + y) == [w] + x + y
  {
  }

  /** `sep.join` of two non-empty lists put together. */
  lemma {:induction false} JoinAppend(x: seq<string>, y: seq<string>, sep: string)
    requires x != [] && y != []
    ensures Join(x + y, sep) == Join(x, sep) + sep + Join(y, sep)
    decreases |x|
  {
    if |x| == 1 {
      assert x + y == [x[0]] + y;
      JoinCons(x[0], y, sep);
    } else {
      assert x + y == [x[0]] + (x[1..] + y);
      JoinCons(x[0], x[1..] + y, sep);
      JoinAppend(x[1..], y, sep);
      JoinCons(x[0], x[1..], sep);
    }
  }

  /** A text has words exactly when it has a non-whitespace character. */
  lemma SplitEmptyIff(s: string)
    ensures Split(s) == [] <==> Visible(s) == []
  {
    CollapseKeepsVisible(s);
    var ws := Split(s);
    if ws != [] {
      JoinWordsCollapsed(ws);
      var c := Collapse(s);
      assert !IsWs(c[0]);
      assert Visible(c) == [c[0]] + Visible(c[1..]);
    }
  }

  /** A run of whitespace between two texts that have words becomes exactly
      one space: `" ".join(s.split())` breaks words at whitespace and nowhere
      else. */
  lemma CollapseAround(a: string, c: char, b: string)
    requires IsWs(c) && Visible(a) != [] && Visible(b) != []
    ensures Collapse(a + [c] + b) == Collapse(a) + " " + Collapse(b)
  {
    var r := [c] + b;
    assert a + [c] + b == a + r;
    SplitAppendWs(a, r);
    SplitSkipsBlank(r);
    assert r[1..] == b;
    SplitEmptyIff(a);
    SplitEmptyIff(b);
    JoinAppend(Split(a), Split(b), " ");
  }

  // ---------------------------------------------------------------------------
  // str.lower()

  function LowerChar(c: char): char {
    if 'A' <= c <= 'Z' then (c as int + 32) as char else c
  }

  /** `s.lower()` restricted to the ASCII letters. */
  function LowerAscii(s: string): string {
    seq(|s|, i requires 0 <= i < |s| => LowerChar(s[i]))
  }
}
