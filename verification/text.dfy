/** The JavaScript string operations the challenge loop relies on:
    `trim`, `replace(/\s+/g, rep)`, `split('\n')`, `join`, `indexOf`,
    `replace(pattern, '')` (first occurrence only) and `toLowerCase`. */
module Text {
  import opened Wrappers

  /** The characters matched by the regular-expression class `\s` and removed
      by `String.prototype.trim`: ECMAScript WhiteSpace and LineTerminator. */
  predicate IsSpace(c: char) {
    || c == ' ' || c == '\t' || c == '\n' || c == '\r'
    || c == '\U{000B}' || c == '\U{000C}' || c == '\U{00A0}' || c == '\U{1680}'
    || ('\U{2000}' <= c <= '\U{200A}')
    || c == '\U{2028}' || c == '\U{2029}' || c == '\U{202F}' || c == '\U{205F}'
    || c == '\U{3000}' || c == '\U{FEFF}'
  }

  predicate NoSpace(s: string) {
    forall i :: 0 <= i < |s| ==> !IsSpace(s[i])
  }

  predicate AllSpace(s: string) {
    forall i :: 0 <= i < |s| ==> IsSpace(s[i])
  }

  /** Neither end of `s` is whitespace. */
  predicate Trimmed(s: string) {
    s == [] || (!IsSpace(s[0]) && !IsSpace(s[|s| - 1]))
  }

  /** Every whitespace character is a plain space and is followed by a non-space. */
  predicate SingleSpaced(s: string) {
    forall i :: 0 <= i < |s| && IsSpace(s[i]) ==>
      s[i] == ' ' && (i + 1 == |s| || !IsSpace(s[i + 1]))
  }

  /** Drops the leading whitespace (`trimStart`). */
  function TrimStart(s: string): (r: string)
    ensures |r| <= |s|
    ensures r == [] || !IsSpace(r[0])
  {
    if s == [] || !IsSpace(s[0]) then s else TrimStart(s[1..])
  }

  /** What `TrimStart` drops is a whitespace prefix; what it keeps is the rest. */
  lemma {:induction false} TrimStartSplits(s: string)
    ensures var r := TrimStart(s);
      r == s[|s| - |r|..] && AllSpace(s[..|s| - |r|])
  {
    if s != [] && IsSpace(s[0]) {
      TrimStartSplits(s[1..]);
      var r := TrimStart(s);
      assert s[1..][|s| - 1 - |r|..] == s[|s| - |r|..];
      assert forall i :: 1 <= i < |s| - |r| ==> s[i] == s[1..][i - 1];
    }
  }

  /** Drops the trailing whitespace (`trimEnd`). */
  function TrimEnd(s: string): (r: string)
    ensures |r| <= |s|
    ensures r == [] || !IsSpace(r[|r| - 1])
  {
    if s == [] || !IsSpace(s[|s| - 1]) then s else TrimEnd(s[..|s| - 1])
  }

  /** What `TrimEnd` keeps is a prefix; what it drops is whitespace. */
  lemma {:induction false} TrimEndSplits(s: string)
    ensures var r := TrimEnd(s);
      r == s[..|r|] && AllSpace(s[|r|..])
  {
    if s != [] && IsSpace(s[|s| - 1]) {
      TrimEndSplits(s[..|s| - 1]);
      var r := TrimEnd(s);
      assert s[..|s| - 1][..|r|] == s[..|r|];
      assert forall i :: |r| <= i < |s| - 1 ==> s[i] == s[..|s| - 1][i];
    }
  }

  /** `String.prototype.trim`. */
  function Trim(s: string): (r: string)
    ensures Trimmed(r)
    ensures r == [] <==> AllSpace(s)
    ensures Trimmed(s) ==> r == s
  {
    TrimTrimmed(s);
    TrimBlankIff(s);
    TrimEnd(TrimStart(s))
  }

  /** Trimming keeps a slice of `s`, starting where `trimStart` stopped, and drops
      only whitespace on either side. */
  lemma TrimIsSlice(s: string)
    ensures var t := TrimStart(s);
      var r := TrimEnd(t);
      var i := |s| - |t|;
      && i + |r| <= |s| && r == s[i..i + |r|]
      && AllSpace(s[..i]) && AllSpace(s[i + |r|..])
  {
    TrimStartSplits(s);
    TrimEndSplits(TrimStart(s));
    SliceBetween(s, TrimStart(s), TrimEnd(TrimStart(s)));
  }

  /** A whitespace prefix of `s`, then `t`; a prefix `r` of `t`, then whitespace:
      `r` is the slice of `s` between two whitespace runs. */
  lemma SliceBetween(s: string, t: string, r: string)
    requires |t| <= |s| && t == s[|s| - |t|..] && AllSpace(s[..|s| - |t|])
    requires |r| <= |t| && r == t[..|r|] && AllSpace(t[|r|..])
    ensures var i := |s| - |t|;
      && i + |r| <= |s| && r == s[i..i + |r|]
      && AllSpace(s[..i]) && AllSpace(s[i + |r|..])
  {
    var i := |s| - |t|;
    SuffixSlices(s, i, |r|);
    assert t[|r|..] == s[i + |r|..];
  }

  lemma SuffixSlices(s: string, i: nat, m: nat)
    requires i + m <= |s|
    ensures s[i..][..m] == s[i..i + m] && s[i..][m..] == s[i + m..]
  {
  }

  /** `trimEnd` keeps the first character of a string that does not start with
      whitespace, so trimming both ends leaves a trimmed string. */
  lemma TrimTrimmed(s: string)
    ensures Trimmed(TrimEnd(TrimStart(s)))
  {
    var t := TrimStart(s);
    var r := TrimEnd(t);
    TrimEndSplits(t);
    if r != [] {
      assert r[0] == t[0];
    }
  }

  /** Trimming leaves nothing exactly when `s` is all whitespace. */
  lemma TrimBlankIff(s: string)
    ensures TrimEnd(TrimStart(s)) == [] <==> AllSpace(s)
  {
    var t := TrimStart(s);
    var r := TrimEnd(t);
    TrimStartSplits(s);
    TrimEndSplits(t);
    if r == [] {
      assert t == [];
      assert s[..|s| - |t|] == s;
    } else {
      assert s[|s| - |t|] == t[0] == r[0];
    }
  }

  /** Slices of a single-spaced string are single-spaced except perhaps at their end;
      a slice that keeps the original end, or ends on a non-space, stays single-spaced. */
  lemma SliceSingleSpaced(s: string, i: nat, j: nat)
    requires i <= j <= |s| && SingleSpaced(s)
    requires j == |s| || j == i || !IsSpace(s[j - 1]) || !IsSpace(s[j])
    ensures SingleSpaced(s[i..j])
  {
    var t := s[i..j];
    forall k | 0 <= k < |t| && IsSpace(t[k])
      ensures t[k] == ' ' && (k + 1 == |t| || !IsSpace(t[k + 1]))
    {
      assert t[k] == s[i + k];
      if k + 1 < |t| {
        assert t[k + 1] == s[i + k + 1];
      }
    }
  }

  /** `s.replace(/\s+/g, rep)`: every maximal run of whitespace becomes `rep`. */
  function Collapse(s: string, rep: string): (r: string)
    ensures NoSpace(s) ==> r == s
    ensures NoSpace(rep) ==> NoSpace(r)
    ensures s != [] && !IsSpace(s[0]) ==> r != [] && r[0] == s[0]
    decreases |s|
  {
    if s == [] then []
    else if IsSpace(s[0]) then rep + Collapse(TrimStart(s[1..]), rep)
    else [s[0]] + Collapse(s[1..], rep)
  }

  lemma ConsSingleSpaced(x: char, c: string)
    requires SingleSpaced(c)
    requires IsSpace(x) ==> x == ' ' && (c == [] || !IsSpace(c[0]))
    ensures SingleSpaced([x] + c)
  {
    var t := [x] + c;
    forall k | 0 <= k < |t| && IsSpace(t[k])
      ensures t[k] == ' ' && (k + 1 == |t| || !IsSpace(t[k + 1]))
    {
      if k > 0 {
        assert t[k] == c[k - 1];
        if k + 1 < |t| {
          assert t[k + 1] == c[k];
        }
      }
    }
  }

  /** Replacing whitespace runs by one space leaves no run longer than one character,
      and no whitespace other than the plain space. */
  lemma {:induction false} CollapseSingleSpaced(s: string)
    ensures SingleSpaced(Collapse(s, " "))
    decreases |s|
  {
    if s == [] {
    } else if IsSpace(s[0]) {
      var t := TrimStart(s[1..]);
      CollapseSingleSpaced(t);
      var c := Collapse(t, " ");
      assert Collapse(s, " ") == [' '] + c;
      ConsSingleSpaced(' ', c);
    } else {
      CollapseSingleSpaced(s[1..]);
      assert Collapse(s, " ") == [s[0]] + Collapse(s[1..], " ");
      ConsSingleSpaced(s[0], Collapse(s[1..], " "));
    }
  }

  /** The visible text of `s`: its characters other than whitespace, in order. */
  function NonSpaces(s: string): string {
    if s == [] then [] else (if IsSpace(s[0]) then [] else [s[0]]) + NonSpaces(s[1..])
  }

  lemma {:induction false} NonSpacesAppend(a: string, b: string)
    ensures NonSpaces(a + b) == NonSpaces(a) + NonSpaces(b)
  {
    if a == [] {
      assert a + b == b;
    } else {
      assert (a + b)[0] == a[0];
      assert (a + b)[1..] == a[1..] + b;
      NonSpacesAppend(a[1..], b);
    }
  }

  lemma {:induction false} NonSpacesBlank(s: string)
    ensures NonSpaces(s) == [] <==> AllSpace(s)
  {
    if s != [] {
      NonSpacesBlank(s[1..]);
      if AllSpace(s[1..]) && IsSpace(s[0]) {
        assert forall i :: 1 <= i < |s| ==> s[i] == s[1..][i - 1];
      }
    }
  }

  lemma {:induction false} TrimStartKeepsText(s: string)
    ensures NonSpaces(TrimStart(s)) == NonSpaces(s)
  {
    if s != [] && IsSpace(s[0]) {
      TrimStartKeepsText(s[1..]);
    }
  }

  /** Replacing whitespace runs by whitespace keeps the visible text. */
  lemma {:induction false} CollapseKeepsText(s: string, rep: string)
    requires AllSpace(rep)
    ensures NonSpaces(Collapse(s, rep)) == NonSpaces(s)
    decreases |s|
  {
    if s != [] {
      if IsSpace(s[0]) {
        var t := TrimStart(s[1..]);
        CollapseKeepsText(t, rep);
        TrimStartKeepsText(s[1..]);
        NonSpacesAppend(rep, Collapse(t, rep));
        NonSpacesBlank(rep);
      } else {
        CollapseKeepsText(s[1..], rep);
        NonSpacesAppend([s[0]], Collapse(s[1..], rep));
      }
    }
  }

  /** Trimming keeps the visible text. */
  lemma TrimKeepsText(s: string)
    ensures NonSpaces(Trim(s)) == NonSpaces(s)
  {
    TrimIsSlice(s);
    var i := |s| - |TrimStart(s)|;
    var j := i + |Trim(s)|;
    var front, middle, back := s[..i], s[i..j], s[j..];
    assert s == front + middle + back;
    NonSpacesAppend(front + middle, back);
    NonSpacesAppend(front, middle);
    NonSpacesBlank(front);
    NonSpacesBlank(back);
    assert NonSpaces(s) == [] + NonSpaces(middle) + [];
  }

  /** Leading whitespace in front of `v` is skipped entirely. */
  lemma {:induction false} TrimStartBlank(u: string, v: string)
    requires AllSpace(u)
    ensures TrimStart(u + v) == TrimStart(v)
  {
    if u == [] {
      assert u + v == v;
    } else {
      assert (u + v)[1..] == u[1..] + v;
      TrimStartBlank(u[1..], v);
    }
  }

  /** Once `u` holds a non-space character, `trimStart` never reaches `v`. */
  lemma {:induction false} TrimStartAppend(u: string, v: string)
    requires !AllSpace(u)
    ensures TrimStart(u + v) == TrimStart(u) + v
  {
    if IsSpace(u[0]) {
      assert (u + v)[1..] == u[1..] + v;
      TrimStartAppend(u[1..], v);
    }
  }

  /** Trailing whitespace after a string that ends in a non-space is removed entirely. */
  lemma {:induction false} TrimEndBlank(u: string, v: string)
    requires AllSpace(v) && (u == [] || !IsSpace(u[|u| - 1]))
    ensures TrimEnd(u + v) == u
  {
    if v == [] {
      assert u + v == u;
    } else {
      assert (u + v)[..|u + v| - 1] == u + v[..|v| - 1];
      TrimEndBlank(u, v[..|v| - 1]);
    }
  }

  /** Once `v` holds a non-space character, `trimEnd` never reaches `u`. */
  lemma {:induction false} TrimEndAppend(u: string, v: string)
    requires !AllSpace(v)
    ensures TrimEnd(u + v) == u + TrimEnd(v)
  {
    if IsSpace(v[|v| - 1]) {
      assert (u + v)[..|u + v| - 1] == u + v[..|v| - 1];
      TrimEndAppend(u, v[..|v| - 1]);
    }
  }

  /** A string ending in a non-space closes all its whitespace runs, so what follows it
      is collapsed on its own. */
  lemma {:induction false} CollapseAppend(a: string, b: string, rep: string)
    requires a == [] || !IsSpace(a[|a| - 1])
    ensures Collapse(a + b, rep) == Collapse(a, rep) + Collapse(b, rep)
    decreases |a|
  {
    if a == [] {
      assert a + b == b;
    } else if !IsSpace(a[0]) {
      var tail := a[1..];
      assert (a + b)[0] == a[0] && (a + b)[1..] == tail + b;
      CollapseAppend(tail, b, rep);
      assert Collapse(a + b, rep) == [a[0]] + (Collapse(tail, rep) + Collapse(b, rep));
      ConsAssoc(a[0], Collapse(tail, rep), Collapse(b, rep));
    } else {
      var t := TrimStart(a[1..]);
      TrimStartSplits(a[1..]);
      assert !AllSpace(a[1..]) by {
        assert a[1..][|a| - 2] == a[|a| - 1];
      }
      assert t != [] && t[|t| - 1] == a[|a| - 1];
      assert (a + b)[0] == a[0] && (a + b)[1..] == a[1..] + b;
      TrimStartAppend(a[1..], b);
      CollapseAppend(t, b, rep);
      assert Collapse(a + b, rep) == rep + (Collapse(t, rep) + Collapse(b, rep));
      Assoc(rep, Collapse(t, rep), Collapse(b, rep));
    }
  }

  /** A leading whitespace run becomes one `rep` in front of the collapsed rest. */
  lemma CollapseLeadingRun(ws: string, y: string, rep: string)
    requires ws != [] && AllSpace(ws)
    requires y == [] || !IsSpace(y[0])
    ensures Collapse(ws + y, rep) == rep + Collapse(y, rep)
  {
    var t := ws + y;
    assert t[0] == ws[0] && t[1..] == ws[1..] + y;
    TrimStartBlank(ws[1..], y);
    assert TrimStart(y) == y;
  }

  /** Every maximal whitespace run becomes exactly one `rep`: a run between `x` and
      `y` is replaced and both sides are collapsed independently. */
  lemma CollapseSplit(x: string, ws: string, y: string, rep: string)
    requires ws != [] && AllSpace(ws)
    requires x == [] || !IsSpace(x[|x| - 1])
    requires y == [] || !IsSpace(y[0])
    ensures Collapse(x + ws + y, rep) == Collapse(x, rep) + rep + Collapse(y, rep)
  {
    var t := ws + y;
    Assoc(x, ws, y);
    CollapseAppend(x, t, rep);
    CollapseLeadingRun(ws, y, rep);
    Assoc(Collapse(x, rep), rep, Collapse(y, rep));
  }

  /** The length of the run of non-space characters at the start of `s`. */
  function WordLength(s: string): (k: nat)
    ensures k <= |s|
    ensures forall i :: 0 <= i < k ==> !IsSpace(s[i])
    ensures k < |s| ==> IsSpace(s[k])
  {
    if s == [] || IsSpace(s[0]) then 0 else 1 + WordLength(s[1..])
  }

  /** The words of `s`: its maximal runs of non-space characters, in order. */
  function Words(s: string): (words: seq<string>)
    ensures forall k :: 0 <= k < |words| ==> words[k] != [] && NoSpace(words[k])
    decreases |s|
  {
    var u := TrimStart(s);
    if u == [] then []
    else
      var k := WordLength(u);
      [u[..k]] + Words(u[k..])
  }

  lemma WordsSkipSpace(s: string)
    ensures Words(s) == Words(TrimStart(s))
  {
    var u := TrimStart(s);
    assert TrimStart(u) == u;
  }

  /** A run of non-space characters followed by a space, or by the end, is the first word. */
  lemma {:induction false} WordLengthIs(s: string, k: nat)
    requires k <= |s| && (forall i :: 0 <= i < k ==> !IsSpace(s[i]))
    requires k == |s| || IsSpace(s[k])
    ensures WordLength(s) == k
  {
    if k > 0 {
      WordLengthIs(s[1..], k - 1);
    }
  }

  /** A text starting with a non-space character starts with its first word. */
  lemma WordsCons(s: string)
    requires s != [] && !IsSpace(s[0])
    ensures WordLength(s) > 0
    ensures Words(s) == [s[..WordLength(s)]] + Words(s[WordLength(s)..])
  {
    assert TrimStart(s) == s;
  }

  /** Whitespace between two texts separates their words. */
  lemma {:induction false} WordsAppend(a: string, ws: string, b: string)
    requires ws != [] && AllSpace(ws)
    ensures Words(a + ws + b) == Words(a) + Words(b)
    decreases |a|, 1
  {
    var u := TrimStart(a);
    TrimStartSplits(a);
    WordsSkipSpace(a);
    WordsSkipSpace(a + ws + b);
    if u == [] {
      assert AllSpace(a + ws) by {
        assert a == a[..|a| - |u|];
      }
      assert a + ws + b == (a + ws) + b;
      TrimStartBlank(a + ws, b);
      WordsSkipSpace(b);
    } else {
      assert !AllSpace(a);
      assert a + ws + b == a + (ws + b);
      TrimStartAppend(a, ws + b);
      assert u + (ws + b) == u + ws + b;
      WordsAppendFrom(u, ws, b);
    }
  }

  lemma {:induction false} WordsAppendFrom(u: string, ws: string, b: string)
    requires ws != [] && AllSpace(ws)
    requires u != [] && !IsSpace(u[0])
    ensures Words(u + ws + b) == Words(u) + Words(b)
    decreases |u|, 0
  {
    WordsCons(u);
    var k := WordLength(u);
    var w, rest := u[..k], u[k..];
    FirstWordOfAppend(u, ws, b);
    WordsAppend(rest, ws, b);
    ConsAssoc(w, Words(rest), Words(b));
  }

  /** The first word of a text is still the first word once whitespace and more text
      follow it. */
  lemma FirstWordOfAppend(u: string, ws: string, b: string)
    requires ws != [] && AllSpace(ws)
    requires u != [] && !IsSpace(u[0])
    ensures var k := WordLength(u);
      Words(u + ws + b) == [u[..k]] + Words(u[k..] + ws + b)
  {
    var k := WordLength(u);
    var s := u + ws + b;
    WordsCons(s);
    WordLengthIs(s, k);
    assert s[..k] == u[..k];
    assert s[k..] == u[k..] + ws + b;
  }

  lemma Assoc<T>(a: seq<T>, b: seq<T>, c: seq<T>)
    ensures a + (b + c) == a + b + c
  {
  }

  lemma ConsAssoc<T>(x: T, p: seq<T>, q: seq<T>)
    ensures [x] + (p + q) == ([x] + p) + q
  {
  }

  /** A text starting with a word keeps that word in front of its collapsed rest. */
  lemma CollapseWordFirst(u: string, rep: string)
    requires u != [] && !IsSpace(u[0])
    ensures var k := WordLength(u); k > 0 && Collapse(u, rep) == u[..k] + Collapse(u[k..], rep)
  {
    var k := WordLength(u);
    assert u == u[..k] + u[k..];
    CollapseAppend(u[..k], u[k..], rep);
    assert Collapse(u[..k], rep) == u[..k];
  }

  /** A leading whitespace run becomes one `rep`. */
  lemma CollapseLeadingSpace(r: string, rep: string)
    requires r != [] && IsSpace(r[0])
    ensures Collapse(r, rep) == rep + Collapse(TrimStart(r), rep)
  {
  }

  /** Trimming a word, a space and a text starting with a non-space only trims the end
      of that text. */
  lemma TrimWordSpace(w: string, c: string)
    requires w != [] && !IsSpace(w[0])
    requires c != [] && !IsSpace(c[0])
    ensures Trim(w + " " + c) == w + " " + Trim(c)
  {
    var x := w + " ";
    assert (x + c)[0] == w[0];
    assert TrimStart(x + c) == x + c;
    assert TrimStart(c) == c;
    assert !AllSpace(c);
    TrimEndAppend(x, c);
  }

  lemma JoinCons(w: string, words: seq<string>, sep: string)
    requires words != []
    ensures Join([w] + words, sep) == w + sep + Join(words, sep)
  {
    assert ([w] + words)[1..] == words;
  }

  lemma {:induction false} TidyWordsFrom(u: string)
    requires u == [] || !IsSpace(u[0])
    ensures Trim(Collapse(u, " ")) == Join(Words(u), " ")
    decreases |u|
  {
    if u != [] {
      var k := WordLength(u);
      var w, rest := u[..k], u[k..];
      WordsCons(u);
      CollapseWordFirst(u, " ");
      assert Trimmed(w);
      if rest == [] {
        assert Collapse(u, " ") == w;
      } else {
        var y := TrimStart(rest);
        CollapseLeadingSpace(rest, " ");
        WordsSkipSpace(rest);
        if y == [] {
          assert Collapse(u, " ") == w + " ";
          assert TrimStart(w + " ") == w + " ";
          TrimEndBlank(w, " ");
        } else {
          var c := Collapse(y, " ");
          TidyWordsFrom(y);
          WordsCons(y);
          assert Collapse(u, " ") == w + " " + c;
          TrimWordSpace(w, c);
          assert TrimStart(c) == c;
          JoinCons(w, Words(y), " ");
        }
      }
    }
  }

  /** `s.replace(/\s+/g, ' ').trim()` is the words of `s` joined by single spaces. */
  lemma TidyWords(s: string)
    ensures Trim(Collapse(s, " ")) == Join(Words(s), " ")
  {
    var u := TrimStart(s);
    WordsSkipSpace(s);
    TidyWordsFrom(u);
    if s != [] && IsSpace(s[0]) {
      assert Collapse(s, " ") == " " + Collapse(u, " ");
      TrimStartBlank(" ", Collapse(u, " "));
      assert TrimStart(u) == u;
      if u != [] {
        assert TrimStart(Collapse(u, " ")) == Collapse(u, " ");
      }
    }
  }

  /** The number of occurrences of `c` in `s`. */
  function Count(s: string, c: char): nat {
    if s == [] then 0 else (if s[0] == c then 1 else 0) + Count(s[1..], c)
  }

  /** `s.split(sep)` for a one-character separator: the pieces between separators,
      including the empty ones; the empty string splits into one empty piece. */
  function Split(s: string, sep: char): (parts: seq<string>)
    ensures |parts| == Count(s, sep) + 1
    ensures forall k :: 0 <= k < |parts| ==> sep !in parts[k]
  {
    if s == [] then [[]]
    else
      var rest := Split(s[1..], sep);
      if s[0] == sep then [[]] + rest
      else [[s[0]] + rest[0]] + rest[1..]
  }

  /** The combined length of the parts. */
  function TotalLength(parts: seq<string>): nat {
    if parts == [] then 0 else |parts[0]| + TotalLength(parts[1..])
  }

  /** `parts.join(sep)`: the parts in order with one `sep` between neighbours, so the
      first part starts the result and its length is the parts' lengths plus one
      separator fewer than there are parts. */
  function Join(parts: seq<string>, sep: string): (r: string)
    ensures parts != [] ==> |r| + |sep| == TotalLength(parts) + |parts| * |sep|
    ensures parts != [] ==> parts[0] <= r
  {
    if |parts| == 0 then []
    else if |parts| == 1 then parts[0]
    else parts[0] + sep + Join(parts[1..], sep)
  }

  /** Joining the pieces of a split with the separator gives back the original text. */
  lemma {:induction false} JoinSplit(s: string, sep: char)
    ensures Join(Split(s, sep), [sep]) == s
  {
    if s != [] {
      var rest := Split(s[1..], sep);
      JoinSplit(s[1..], sep);
      if s[0] == sep {
        assert Split(s, sep) == [[]] + rest;
      } else {
        var parts := [[s[0]] + rest[0]] + rest[1..];
        assert Split(s, sep) == parts;
        if |rest| == 1 {
          assert Join(rest, [sep]) == rest[0];
        } else {
          assert Join(rest, [sep]) == rest[0] + [sep] + Join(rest[1..], [sep]);
          assert parts[1..] == rest[1..];
        }
      }
    }
  }

  /** `p` occurs in `s` starting at index `k`. */
  predicate OccursAt(s: string, p: string, k: nat) {
    k + |p| <= |s| && s[k..k + |p|] == p
  }

  function IndexFrom(s: string, p: string, i: nat): (r: Option<nat>)
    requires i <= |s|
    ensures r.Some? ==> i <= r.value && OccursAt(s, p, r.value)
    ensures r.Some? ==> forall k :: i <= k < r.value ==> !OccursAt(s, p, k)
    ensures r.None? ==> forall k :: i <= k <= |s| ==> !OccursAt(s, p, k)
    decreases |s| - i
  {
    if i + |p| > |s| then None
    else if s[i..i + |p|] == p then Some(i)
    else if i == |s| then None
    else IndexFrom(s, p, i + 1)
  }

  /** `s.indexOf(p)`: the first index at which `p` occurs, `None` standing for -1. */
  function IndexOf(s: string, p: string): (r: Option<nat>)
    ensures r.Some? ==> OccursAt(s, p, r.value)
    ensures r.Some? ==> forall k :: 0 <= k < r.value ==> !OccursAt(s, p, k)
    ensures r.None? ==> forall k :: 0 <= k <= |s| ==> !OccursAt(s, p, k)
  {
    IndexFrom(s, p, 0)
  }

  /** A pattern containing whitespace never occurs in a string without whitespace. */
  lemma AbsentWhenSpaced(s: string, p: string)
    requires NoSpace(s) && !NoSpace(p)
    ensures IndexOf(s, p).None?
  {
  }

  /** `s.replace(p, rep)` with a string pattern: only the first occurrence is replaced. */
  function ReplaceFirst(s: string, p: string, rep: string): (r: string)
    ensures IndexOf(s, p).None? ==> r == s
  {
    match IndexOf(s, p)
    case None => s
    case Some(k) => s[..k] + rep + s[k + |p|..]
  }

  /** The occurrence of `p` behind `x`, when it is the first one, becomes `rep`, and
      everything after it is kept, later occurrences of `p` included. */
  lemma ReplaceFirstAt(x: string, p: string, y: string, rep: string)
    requires forall k :: 0 <= k < |x| ==> !OccursAt(x + p + y, p, k)
    ensures ReplaceFirst(x + p + y, p, rep) == x + rep + y
  {
    var s := x + p + y;
    assert s[|x|..|x| + |p|] == p;
    assert OccursAt(s, p, |x|);
    assert s[..|x|] == x;
    assert s[|x| + |p|..] == y;
  }

  predicate IsUpper(c: char) {
    'A' <= c <= 'Z'
  }

  predicate NoUpper(s: string) {
    forall i :: 0 <= i < |s| ==> !IsUpper(s[i])
  }

  const LowerAlphabet: string := "abcdefghijklmnopqrstuvwxyz"

  /** One character of `toLowerCase`: an upper-case ASCII letter becomes the
      lower-case letter at the same place in the alphabet; anything else is kept. */
  function LowerChar(c: char): (r: char)
    ensures IsUpper(c) ==> r == LowerAlphabet[c as int - 'A' as int]
    ensures !IsUpper(r)
    ensures IsSpace(r) <==> IsSpace(c)
    ensures !IsUpper(c) ==> r == c
  {
    if IsUpper(c) then (c as int + 32) as char else c
  }

  /** `toLowerCase`, on the ASCII letters. */
  function ToLower(s: string): (r: string)
    ensures |r| == |s| && NoUpper(r)
    ensures forall i :: 0 <= i < |s| ==> r[i] == LowerChar(s[i])
    ensures NoSpace(s) ==> NoSpace(r)
    ensures NoUpper(s) ==> r == s
  {
    seq(|s|, i requires 0 <= i < |s| => LowerChar(s[i]))
  }

  /** Lower-casing works character by character, so it distributes over
      concatenation. */
  lemma ToLowerAppend(x: string, y: string)
    ensures ToLower(x + y) == ToLower(x) + ToLower(y)
  {
    assert forall i :: 0 <= i < |x + y| ==> ToLower(x + y)[i] == (ToLower(x) + ToLower(y))[i];
  }
}
