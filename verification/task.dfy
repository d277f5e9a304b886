/** The instruction text of an image challenge: `get_task`, the hard-mode flag,
    the label canonicalisation chain and the `label_cv` synonym table
    (src/recaptcha.js:131-165, 343-378, 401). */
module Task {
  import opened Wrappers
  import opened Text

  /** Why `get_task` throws: the instructions element is missing, so the line list is
      `undefined`; or there is a single line, and the code calls `join` on `null`. */
  datatype TaskError = LinesUndefined | JoinOnNull

  /** `get_task(task_lines)`: the first two instruction lines joined by a space,
      whitespace runs collapsed and the ends trimmed; `None` when that text is empty. */
  function GetTask(taskLines: Option<seq<string>>): (r: Result<Option<string>, TaskError>)
    ensures r.Err? <==> taskLines.None? || |taskLines.value| <= 1
    ensures r == Err(LinesUndefined) <==> taskLines.None?
    ensures r.Ok? && r.value.Some? ==>
      var t := r.value.value;
      t != [] && Trimmed(t) && SingleSpaced(t)
  {
    match taskLines
    case None => Err(LinesUndefined)
    case Some(lines) =>
      if |lines| > 1 then
        var t := Trim(Collapse(Join(lines[..2], " "), " "));
        CollapseSingleSpaced(Join(lines[..2], " "));
        TrimSingleSpaced(Collapse(Join(lines[..2], " "), " "));
        if t == [] then Ok(None) else Ok(Some(t))
      else Err(JoinOnNull)
  }

  /** Trimming a single-spaced text keeps it single-spaced. */
  lemma TrimSingleSpaced(s: string)
    requires SingleSpaced(s)
    ensures SingleSpaced(Trim(s))
  {
    var t := TrimStart(s);
    TrimStartSplits(s);
    TrimEndSplits(t);
    SliceSingleSpaced(s, |s| - |t|, |s|);
    SliceSingleSpaced(t, 0, |TrimEnd(t)|);
  }

  /** The task is absent (`get_task` returns `null`) exactly when both of the
      first two instruction lines are blank. */
  lemma BlankTask(lines: seq<string>)
    requires |lines| >= 2
    ensures GetTask(Some(lines)) == Ok(None) <==> AllSpace(lines[0]) && AllSpace(lines[1])
  {
    var j := Join(lines[..2], " ");
    assert j == lines[0] + " " + lines[1] by {
      assert lines[..2][1..] == [lines[1]];
      assert Join(lines[..2][1..], " ") == lines[1];
    }
    var c := Collapse(j, " ");
    CollapseKeepsText(j, " ");
    NonSpacesAppend(lines[0] + " ", lines[1]);
    NonSpacesAppend(lines[0], " ");
    NonSpacesBlank(c);
    NonSpacesBlank(lines[0]);
    NonSpacesBlank(lines[1]);
  }

  /** `get_task` returns the words of the first two instruction lines, in order and
      joined by single spaces, or `null` when those lines hold no word. */
  lemma GetTaskWords(lines: seq<string>)
    requires |lines| >= 2
    ensures var words := Words(lines[0]) + Words(lines[1]);
      GetTask(Some(lines)) == if words == [] then Ok(None) else Ok(Some(Join(words, " ")))
  {
    var j := Join(lines[..2], " ");
    assert j == lines[0] + " " + lines[1] by {
      assert lines[..2][1..] == [lines[1]];
      assert Join(lines[..2][1..], " ") == lines[1];
    }
    WordsAppend(lines[0], " ", lines[1]);
    TidyWords(j);
    var words := Words(j);
    if words != [] {
      assert |Join(words, " ")| >= |words[0]| > 0;
    }
  }

  /** The task keeps every visible character of the first two lines, in order. */
  lemma GetTaskKeepsText(lines: seq<string>)
    requires |lines| >= 2
    ensures var r := GetTask(Some(lines));
      r.Ok? && r.value.Some? ==> NonSpaces(r.value.value) == NonSpaces(lines[0]) + NonSpaces(lines[1])
  {
    var j := Join(lines[..2], " ");
    assert j == lines[0] + " " + lines[1] by {
      assert lines[..2][1..] == [lines[1]];
      assert Join(lines[..2][1..], " ") == lines[1];
    }
    var t := Trim(Collapse(j, " "));
    assert NonSpaces(t) == NonSpaces(lines[0]) + NonSpaces(lines[1]) by {
      CollapseKeepsText(j, " ");
      TrimKeepsText(Collapse(j, " "));
      NonSpacesAppend(lines[0] + " ", lines[1]);
      NonSpacesAppend(lines[0], " ");
      assert NonSpaces(" ") == [];
      assert NonSpaces(lines[0]) + [] == NonSpaces(lines[0]);
    }
    assert GetTask(Some(lines)) == if t == [] then Ok(None) else Ok(Some(t));
  }

  /** `is_hard`: the instructions have exactly three lines, so a hard challenge's
      lines never make `get_task` throw. */
  function IsHard(taskLines: seq<string>): (hard: bool)
    ensures hard ==> GetTask(Some(taskLines)).Ok?
  {
    |taskLines| == 3
  }

  /** The lines of the instructions' `innerText` are split at line feeds, so the
      challenge is hard exactly when that text holds two line feeds, and the
      lines always join back into the text. */
  lemma HardIffTwoLineFeeds(innerText: string)
    ensures IsHard(Split(innerText, '\n')) <==> Count(innerText, '\n') == 2
    ensures Join(Split(innerText, '\n'), "\n") == innerText
  {
    JoinSplit(innerText, '\n');
  }

  const SquaresPrefix: string := "Select all squares with"
  const ImagesPrefix: string := "Select all images with"

  predicate IsLetterA(c: char) { c == 'a' || c == 'A' }
  predicate IsLetterN(c: char) { c == 'n' || c == 'N' }

  /** `.replace(/^(a|an)\s+/i, '')`: a leading article "a" or "an", in any case,
      together with all the whitespace after it. */
  function StripArticle(s: string): (r: string)
    ensures |r| <= |s| && r == s[|s| - |r|..]
    ensures NoSpace(s) ==> r == s
  {
    if |s| >= 2 && IsLetterA(s[0]) && IsSpace(s[1]) then
      TrimStartSplits(s[1..]);
      TrimStart(s[1..])
    else if |s| >= 3 && IsLetterA(s[0]) && IsLetterN(s[1]) && IsSpace(s[2]) then
      TrimStartSplits(s[2..]);
      TrimStart(s[2..])
    else s
  }

  /** "a" or "an", in any case. */
  predicate Article(a: string) {
    || (|a| == 1 && IsLetterA(a[0]))
    || (|a| == 2 && IsLetterA(a[0]) && IsLetterN(a[1]))
  }

  /** A leading article is dropped together with all the whitespace after it. */
  lemma StripArticleDrops(a: string, ws: string, w: string)
    requires Article(a) && ws != [] && AllSpace(ws)
    requires w == [] || !IsSpace(w[0])
    ensures StripArticle(a + ws + w) == w
  {
    var s := a + ws + w;
    TrimStartBlank(ws, w);
    assert TrimStart(w) == w;
    if |a| == 1 {
      assert s[0] == a[0] && s[1] == ws[0];
      assert s[1..] == ws + w;
    } else {
      assert s[0] == a[0] && s[1] == a[1] && s[2] == ws[0];
      assert s[2..] == ws + w;
    }
  }

  /** Text is left alone exactly when it does not start with an article followed by
      whitespace. */
  lemma StripArticleIff(s: string)
    ensures StripArticle(s) == s <==>
      forall k :: 0 < k < |s| && Article(s[..k]) ==> !IsSpace(s[k])
  {
    if |s| >= 2 && IsLetterA(s[0]) && IsSpace(s[1]) {
      assert Article(s[..1]);
      assert |StripArticle(s)| < |s|;
    } else if |s| >= 3 && IsLetterA(s[0]) && IsLetterN(s[1]) && IsSpace(s[2]) {
      assert Article(s[..2]);
      assert |StripArticle(s)| < |s|;
    } else {
      forall k | 0 < k < |s| && Article(s[..k]) ensures !IsSpace(s[k]) {
        assert s[..k][0] == s[0];
        if k == 2 {
          assert s[..k][1] == s[1];
        }
      }
    }
  }

  /** The label chain of `on_image_frame`: remove the first "Select all squares with"
      and the first "Select all images with", trim, drop a leading article, turn each
      whitespace run into `_`, lower-case. */
  function CanonicalLabel(task: string): (canon: string)
    ensures NoSpace(canon) && NoUpper(canon)
  {
    var stripped := ReplaceFirst(ReplaceFirst(task, SquaresPrefix, ""), ImagesPrefix, "");
    ToLower(Collapse(StripArticle(Trim(stripped)), "_"))
  }

  /** A lower-case name without whitespace is its own canonical label. */
  lemma CanonicalFixesCleanNames(name: string)
    requires NoSpace(name) && NoUpper(name)
    ensures CanonicalLabel(name) == name
  {
    assert IsSpace(SquaresPrefix[6]) && IsSpace(ImagesPrefix[6]);
    AbsentWhenSpaced(name, SquaresPrefix);
    var s1 := ReplaceFirst(name, SquaresPrefix, "");
    assert s1 == name;
    AbsentWhenSpaced(name, ImagesPrefix);
    var s2 := ReplaceFirst(s1, ImagesPrefix, "");
    assert s2 == name;
    var s3 := Trim(s2);
    assert s3 == name;
    var s4 := StripArticle(s3);
    assert s4 == name;
    var s5 := Collapse(s4, "_");
    assert s5 == name;
  }

  /** When the instruction prefixes leave a single word once trimmed, the label
      is that word in lower case. */
  lemma CanonicalOfOneWord(task: string, word: string)
    requires Trim(ReplaceFirst(ReplaceFirst(task, SquaresPrefix, ""), ImagesPrefix, "")) == word
    requires NoSpace(word)
    ensures CanonicalLabel(task) == ToLower(word)
  {
    assert StripArticle(word) == word;
    assert Collapse(word, "_") == word;
  }

  /** Canonicalising a canonical label changes nothing. */
  lemma CanonicalLabelIdempotent(task: string)
    ensures CanonicalLabel(CanonicalLabel(task)) == CanonicalLabel(task)
  {
    CanonicalFixesCleanNames(CanonicalLabel(task));
  }

  /** `label_cv`: task labels to classifier model names. */
  const LabelCv: map<string, string> := map[
    "bicycle" := "bicycle", "bicycles" := "bicycle",
    "bridge" := "bridge", "bridges" := "bridge",
    "bus" := "bus", "buses" := "bus",
    "car" := "car", "cars" := "car",
    "chimney" := "chimney", "chimneys" := "chimney",
    "crosswalk" := "crosswalk", "crosswalks" := "crosswalk",
    "fire hydrant" := "fire hydrant",
    "motorcycle" := "motorcycle", "motorcycles" := "motorcycle",
    "mountain" := "mountain", "mountains" := "mountain",
    "palm trees" := "palm tree",
    "stair" := "stair", "stairs" := "stair",
    "traffic light" := "traffic light", "traffic lights" := "traffic light"
  ]

  /** `label_cv[label]`, `None` standing for `undefined`. Every model name is its
      label with the plural ending, if any, dropped. */
  function ModelKey(name: string): (model: Option<string>)
    ensures model.Some? ==> model.value <= name
    ensures model.Some? ==> |name| <= |model.value| + 2
    ensures model.Some? && |name| > |model.value| ==> name[|name| - 1] == 's'
    ensures model.Some? && |name| == |model.value| + 2 ==> name[|name| - 2] == 'e'
  {
    if name in LabelCv then Some(LabelCv[name]) else None
  }

  /** The table's keys for the fire-hydrant, palm-tree and traffic-light classifiers
      all contain a space, so a name without whitespace never selects them. */
  lemma SpacedKeysNeedSpacedNames(name: string)
    requires NoSpace(name)
    ensures ModelKey(name) != Some("fire hydrant")
    ensures ModelKey(name) != Some("palm tree")
    ensures ModelKey(name) != Some("traffic light")
  {
    if |name| > 7 {
      assert !IsSpace(name[4]) && !IsSpace(name[7]);
    }
  }

  /** A multi-word task label comes out underscored, and no key of the table holds
      an underscore: the lookup yields `undefined`. */
  lemma UnderscoredLabelUnmapped(name: string)
    requires '_' in name
    ensures ModelKey(name) == None
  {
  }

  /** Canonical labels never contain whitespace, so the fire-hydrant, palm-tree and
      traffic-light classifiers are never selected. */
  lemma MultiWordModelsUnreachable(task: string)
    ensures ModelKey(CanonicalLabel(task)) != Some("fire hydrant")
    ensures ModelKey(CanonicalLabel(task)) != Some("palm tree")
    ensures ModelKey(CanonicalLabel(task)) != Some("traffic light")
  {
    SpacedKeysNeedSpacedNames(CanonicalLabel(task));
  }

  /** A word of lower-case ASCII letters and underscores has no whitespace and no
      upper-case letter. */
  lemma LowerWord(w: string)
    requires forall i :: 0 <= i < |w| ==> 'a' <= w[i] <= 'z' || w[i] == '_'
    ensures NoSpace(w) && NoUpper(w)
  {
  }

  /** Neither instruction prefix occurs anywhere in `s`. */
  predicate PrefixFree(s: string) {
    forall k :: 0 <= k <= |s| ==> !OccursAt(s, SquaresPrefix, k) && !OccursAt(s, ImagesPrefix, k)
  }

  /** Both prefixes hold a space 6, 10 and 17 or 18 characters past their start, so
      text with at most two spaces past its first character holds neither. */
  lemma FewSpacesPrefixFree(s: string, p: nat, q: nat)
    requires forall i :: 0 < i < |s| ==> s[i] != ' ' || i == p || i == q
    ensures PrefixFree(s)
  {
    assert SquaresPrefix[6] == SquaresPrefix[10] == SquaresPrefix[18] == ' ';
    assert ImagesPrefix[6] == ImagesPrefix[10] == ImagesPrefix[17] == ' ';
    forall k | 0 <= k <= |s|
      ensures !OccursAt(s, SquaresPrefix, k) && !OccursAt(s, ImagesPrefix, k)
    {
      if k + |SquaresPrefix| <= |s| {
        var m := s[k..k + |SquaresPrefix|];
        assert m[6] == s[k + 6] && m[10] == s[k + 10] && m[18] == s[k + 18];
      }
      if k + |ImagesPrefix| <= |s| {
        var m := s[k..k + |ImagesPrefix|];
        assert m[6] == s[k + 6] && m[10] == s[k + 10] && m[17] == s[k + 17];
      }
    }
  }

  /** Behind the images prefix, text holding neither prefix is all that the two
      prefix removals leave. */
  lemma ImagesTaskStrip(rest: string)
    requires PrefixFree(rest)
    ensures ReplaceFirst(ReplaceFirst(ImagesPrefix + rest, SquaresPrefix, ""), ImagesPrefix, "") == rest
  {
    var t := ImagesPrefix + rest;
    forall k | 0 <= k <= |t| ensures !OccursAt(t, SquaresPrefix, k) {
      if k + |SquaresPrefix| <= |t| {
        assert t[k..k + |SquaresPrefix|][0] == t[k];
        if k == 0 {
          assert t[k..k + |SquaresPrefix|][11] == t[11] == 'i';
        } else if k >= |ImagesPrefix| {
          var j := k - |ImagesPrefix|;
          assert t[k..k + |SquaresPrefix|] == rest[j..j + |SquaresPrefix|];
          assert !OccursAt(rest, SquaresPrefix, j);
        } else {
          assert t[k] == ImagesPrefix[k];
        }
      }
    }
    assert OccursAt(t, ImagesPrefix, 0) by {
      assert t[..|ImagesPrefix|] == ImagesPrefix;
    }
    assert t[|ImagesPrefix|..] == rest;
  }

  /** Behind the squares prefix, text holding neither prefix is all that the two
      prefix removals leave. */
  lemma SquaresTaskStrip(rest: string)
    requires PrefixFree(rest)
    ensures ReplaceFirst(ReplaceFirst(SquaresPrefix + rest, SquaresPrefix, ""), ImagesPrefix, "") == rest
  {
    var t := SquaresPrefix + rest;
    assert OccursAt(t, SquaresPrefix, 0) by {
      assert t[..|SquaresPrefix|] == SquaresPrefix;
    }
    assert ReplaceFirst(t, SquaresPrefix, "") == rest by {
      assert t[|SquaresPrefix|..] == rest;
    }
  }

  /** One leading space in front of trimmed text is all that `trim` removes. */
  lemma TrimLeadingSpace(x: string)
    requires x != [] && Trimmed(x)
    ensures Trim(" " + x) == x
  {
    TrimStartBlank(" ", x);
    assert TrimStart(x) == x;
  }

  /** A non-empty word of lower-case ASCII letters. */
  predicate LowerLetters(w: string) {
    w != [] && forall i :: 0 <= i < |w| ==> 'a' <= w[i] <= 'z'
  }

  /** A word of lower-case letters has no whitespace and lower-casing keeps it. */
  lemma LowerLettersKept(w: string)
    requires LowerLetters(w)
    ensures NoSpace(w) && ToLower(w) == w
  {
    LowerWord(w);
  }

  /** Lower-casing two words joined by `_` lower-cases each word. */
  lemma LowerUnderscoreJoin(w1: string, w2: string)
    ensures ToLower(w1 + "_" + w2) == ToLower(w1) + "_" + ToLower(w2)
  {
    LowerWord("_");
    ToLowerAppend(w1 + "_", w2);
    ToLowerAppend(w1, "_");
  }

  /** The steps of the label chain, one at a time. */
  lemma CanonicalSteps(task: string, rest: string, phrase: string, words: string, joined: string)
    requires ReplaceFirst(ReplaceFirst(task, SquaresPrefix, ""), ImagesPrefix, "") == rest
    requires Trim(rest) == phrase && StripArticle(phrase) == words
    requires Collapse(words, "_") == joined
    ensures CanonicalLabel(task) == ToLower(joined)
  {
  }

  /** Two non-empty words separated by one space collapse into the words joined by
      the replacement. */
  lemma CollapseTwoWords(w1: string, w2: string, rep: string)
    requires w1 != [] && w2 != [] && NoSpace(w1) && NoSpace(w2)
    ensures Collapse(w1 + " " + w2, rep) == w1 + rep + w2
  {
    CollapseSplit(w1, " ", w2, rep);
    assert w1 + " " + w2 == w1 + [' '] + w2;
  }

  /** An article is made of letters. */
  lemma ArticleNoSpace(a: string)
    requires Article(a)
    ensures a != [] && NoSpace(a)
  {
  }

  /** The text after the images prefix of a two-word task with an article. */
  lemma ImagesArticleStrip(a: string, w1: string, w2: string)
    requires Article(a) && NoSpace(w1) && NoSpace(w2)
    ensures ReplaceFirst(ReplaceFirst(ImagesPrefix + " " + a + " " + w1 + " " + w2, SquaresPrefix, ""), ImagesPrefix, "")
      == " " + (a + " " + (w1 + " " + w2))
  {
    var rest := " " + (a + " " + (w1 + " " + w2));
    assert ImagesPrefix + " " + a + " " + w1 + " " + w2 == ImagesPrefix + rest;
    ArticleNoSpace(a);
    forall i | 0 < i < |rest| ensures rest[i] != ' ' || i == 1 + |a| || i == 2 + |a| + |w1| {
      if 1 + |a| + 1 <= i < 1 + |a| + 1 + |w1| {
        assert rest[i] == w1[i - |a| - 2];
      } else if 1 + |a| + 1 + |w1| + 1 <= i {
        assert rest[i] == w2[i - |a| - |w1| - 3];
      } else if i < 1 + |a| {
        assert rest[i] == a[i - 1];
      }
    }
    FewSpacesPrefixFree(rest, 1 + |a|, 2 + |a| + |w1|);
    ImagesTaskStrip(rest);
  }

  /** The text after the squares prefix of a two-word task. */
  lemma SquaresWordsStrip(w1: string, w2: string)
    requires NoSpace(w1) && NoSpace(w2)
    ensures ReplaceFirst(ReplaceFirst(SquaresPrefix + " " + w1 + " " + w2, SquaresPrefix, ""), ImagesPrefix, "")
      == " " + (w1 + " " + w2)
  {
    var rest := " " + (w1 + " " + w2);
    assert SquaresPrefix + " " + w1 + " " + w2 == SquaresPrefix + rest;
    forall i | 0 < i < |rest| ensures rest[i] != ' ' || i == 1 + |w1| {
      if i < 1 + |w1| {
        assert rest[i] == w1[i - 1];
      } else if 1 + |w1| < i {
        assert rest[i] == w2[i - |w1| - 2];
      }
    }
    FewSpacesPrefixFree(rest, 1 + |w1|, 1 + |w1|);
    SquaresTaskStrip(rest);
  }

  /** Words separated by single spaces, starting and ending with a word, are trimmed. */
  lemma SpacedWordsTrimmed(u: string, w1: string, w2: string)
    requires u != [] && !IsSpace(u[0]) && w2 != [] && NoSpace(w2)
    ensures Trim(" " + (u + " " + (w1 + " " + w2))) == u + " " + (w1 + " " + w2)
  {
    var x := u + " " + (w1 + " " + w2);
    assert x[0] == u[0] && x[|x| - 1] == w2[|w2| - 1];
    TrimLeadingSpace(x);
  }

  /** "Select all images with a <w1> <w2>", whatever the case of the article and of the
      words, comes out as `<w1>_<w2>` in lower case. */
  lemma ImagesArticleTwoWords(a: string, w1: string, w2: string)
    requires Article(a) && w1 != [] && w2 != [] && NoSpace(w1) && NoSpace(w2)
    ensures CanonicalLabel(ImagesPrefix + " " + a + " " + w1 + " " + w2) == ToLower(w1) + "_" + ToLower(w2)
  {
    var words := w1 + " " + w2;
    ImagesArticleStrip(a, w1, w2);
    SpacedWordsTrimmed(a, w1, w2);
    assert words[0] == w1[0];
    StripArticleDrops(a, " ", words);
    CollapseTwoWords(w1, w2, "_");
    LowerUnderscoreJoin(w1, w2);
    CanonicalSteps(ImagesPrefix + " " + a + " " + w1 + " " + w2, " " + (a + " " + words),
      a + " " + words, words, w1 + "_" + w2);
  }

  /** Two words whose first is not an article are left alone by the article removal. */
  lemma NoArticleKept(w1: string, w2: string)
    requires w1 != [] && NoSpace(w1) && !Article(w1)
    ensures StripArticle(w1 + " " + w2) == w1 + " " + w2
  {
    var words := w1 + " " + w2;
    assert words[..|w1|] == w1;
    assert words[|w1|] == ' ';
    assert forall k :: 0 <= k < |w1| ==> words[k] == w1[k];
    forall k | 0 < k < |words| && Article(words[..k]) ensures !IsSpace(words[k]) {
      assert words[..k][0] == words[0];
    }
    StripArticleIff(words);
  }

  /** "Select all squares with <w1> <w2>", the first word not being "a" or "an" in any
      case, comes out as `<w1>_<w2>` in lower case. */
  lemma SquaresTwoWords(w1: string, w2: string)
    requires w1 != [] && w2 != [] && NoSpace(w1) && NoSpace(w2) && !Article(w1)
    ensures CanonicalLabel(SquaresPrefix + " " + w1 + " " + w2) == ToLower(w1) + "_" + ToLower(w2)
  {
    var words := w1 + " " + w2;
    SquaresWordsStrip(w1, w2);
    assert Trim(" " + words) == words by {
      assert words[0] == w1[0] && words[|words| - 1] == w2[|w2| - 1];
      TrimLeadingSpace(words);
    }
    NoArticleKept(w1, w2);
    CollapseTwoWords(w1, w2, "_");
    LowerUnderscoreJoin(w1, w2);
    CanonicalSteps(SquaresPrefix + " " + w1 + " " + w2, " " + words, words, words, w1 + "_" + w2);
  }

  const BicyclesTask: string := "Select all images with Bicycles"

  /** "Select all images with <w>", for a single word, leaves `w` once the prefixes
      are removed and the rest is trimmed. */
  lemma ImagesOneWordStrip(w: string)
    requires w != [] && NoSpace(w)
    ensures Trim(ReplaceFirst(ReplaceFirst(ImagesPrefix + " " + w, SquaresPrefix, ""), ImagesPrefix, "")) == w
  {
    var rest := " " + w;
    assert ImagesPrefix + " " + w == ImagesPrefix + rest;
    forall i | 0 < i < |rest| ensures rest[i] != ' ' {
      assert rest[i] == w[i - 1];
    }
    FewSpacesPrefixFree(rest, 0, 0);
    ImagesTaskStrip(rest);
    assert w[|w| - 1] != ' ';
    TrimLeadingSpace(w);
  }

  lemma BicyclesWords()
    ensures BicyclesTask == ImagesPrefix + " " + "Bicycles"
  {
  }

  lemma BicyclesStrip()
    ensures Trim(ReplaceFirst(ReplaceFirst(BicyclesTask, SquaresPrefix, ""), ImagesPrefix, "")) == "Bicycles"
  {
    BicyclesWords();
    BicyclesLower();
    ImagesOneWordStrip("Bicycles");
  }

  lemma BicyclesLower()
    ensures NoSpace("Bicycles") && ToLower("Bicycles") == "bicycles"
  {
    var w := "Bicycles";
    var l := ToLower(w);
    assert l[0] == 'b';
    forall i | 1 <= i < |w| ensures l[i] == w[i] && !IsSpace(w[i]) {
      assert 'a' <= w[i] <= 'z';
    }
  }

  /** "Select all images with Bicycles" canonicalises to `bicycles`, which selects the
      `bicycle` classifier. */
  lemma BicyclesExample()
    ensures CanonicalLabel(BicyclesTask) == "bicycles"
    ensures ModelKey(CanonicalLabel(BicyclesTask)) == Some("bicycle")
  {
    assert ModelKey("bicycles") == Some("bicycle");
    assert CanonicalLabel(BicyclesTask) == "bicycles" by {
      BicyclesStrip();
      BicyclesLower();
      CanonicalOfOneWord(BicyclesTask, "Bicycles");
    }
  }

  const HydrantTask: string := "Select all images with a fire hydrant"

  lemma HydrantWords()
    ensures HydrantTask == ImagesPrefix + " " + "a" + " " + "fire" + " " + "hydrant"
    ensures "fire" + "_" + "hydrant" == "fire_hydrant"
    ensures Article("a") && LowerLetters("fire") && LowerLetters("hydrant")
  {
  }

  /** "Select all images with a fire hydrant" loses its article and comes out as
      `fire_hydrant`, which the table does not know. */
  lemma FireHydrantExample()
    ensures CanonicalLabel(HydrantTask) == "fire_hydrant"
    ensures ModelKey(CanonicalLabel(HydrantTask)) == None
  {
    assert ModelKey("fire_hydrant") == None by {
      UnderscoredLabelUnmapped("fire_hydrant");
    }
    assert CanonicalLabel(HydrantTask) == "fire_hydrant" by {
      HydrantWords();
      LowerLettersKept("fire");
      LowerLettersKept("hydrant");
      ImagesArticleTwoWords("a", "fire", "hydrant");
    }
  }

  const TrafficLightsTask: string := "Select all squares with traffic lights"

  lemma TrafficLightsWords()
    ensures TrafficLightsTask == SquaresPrefix + " " + "traffic" + " " + "lights"
    ensures "traffic" + "_" + "lights" == "traffic_lights"
    ensures LowerLetters("traffic") && LowerLetters("lights")
  {
  }

  /** "Select all squares with traffic lights" comes out as `traffic_lights`, which the
      table does not know. */
  lemma TrafficLightsExample()
    ensures CanonicalLabel(TrafficLightsTask) == "traffic_lights"
    ensures ModelKey(CanonicalLabel(TrafficLightsTask)) == None
  {
    assert ModelKey("traffic_lights") == None by {
      UnderscoredLabelUnmapped("traffic_lights");
    }
    assert CanonicalLabel(TrafficLightsTask) == "traffic_lights" by {
      TrafficLightsWords();
      LowerLettersKept("traffic");
      LowerLettersKept("lights");
      SquaresTwoWords("traffic", "lights");
    }
  }
}
