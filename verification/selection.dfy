/** Turning classifier scores into clicks and the submit decision
    (src/recaptcha.js:415-433, 442-446). */
module Selection {
  import opened Grid

  /** `output.indexOf(Math.max(...output))`: the first index holding the largest
      score; -1 for an empty output, where the maximum is `-Infinity`. */
  function Argmax(s: seq<int>): (k: int)
    ensures s == [] <==> k == -1
    ensures s != [] ==> 0 <= k < |s|
    ensures s != [] ==> forall j :: 0 <= j < |s| ==> s[j] <= s[k]
    ensures s != [] ==> forall j :: 0 <= j < k ==> s[j] < s[k]
  {
    if s == [] then -1
    else
      var last := |s| - 1;
      var k := Argmax(s[..last]);
      assert forall j :: 0 <= j < last ==> s[..last][j] == s[j];
      if k >= 0 && s[k] >= s[last] then k else last
  }

  /** `argmaxValue == 1`: the tile shows the object when class 1 wins, which needs
      at least two classes and class 1 scoring strictly above class 0. */
  predicate IsMatch(scores: seq<int>): (m: bool)
    ensures m ==> |scores| >= 2 && scores[0] < scores[1]
  {
    Argmax(scores) == 1
  }

  /** A tile matches exactly when class 1 scores strictly above class 0 and no later
      class scores above class 1; a tie with class 0 counts as no match. */
  lemma MatchIff(s: seq<int>)
    ensures IsMatch(s) <==>
      |s| >= 2 && s[0] < s[1] && forall j :: 2 <= j < |s| ==> s[j] <= s[1]
  {
    if |s| >= 2 && s[0] < s[1] && forall j :: 2 <= j < |s| ==> s[j] <= s[1] {
      var k := Argmax(s);
      assert s[k] <= s[1];
    }
  }

  /** The number of matching tiles. */
  function CountTrue(data: seq<bool>): (c: nat)
    ensures c <= |data|
    ensures c == 0 <==> forall i :: 0 <= i < |data| ==> !data[i]
  {
    if data == [] then 0
    else
      var last := |data| - 1;
      assert forall i :: 0 <= i < last ==> data[..last][i] == data[i];
      CountTrue(data[..last]) + (if data[last] then 1 else 0)
  }

  /** Step `i` of the click loop clicks: tile `i` matched, there is a clickable cell
      for it, and that cell is not already selected (`clickable_cells[i]` past the end
      is `undefined`, which counts as unselected and is not clicked). */
  predicate ClicksAt(data: seq<bool>, clickable: seq<nat>, cells: seq<Cell>, i: nat)
    requires i < |data|
  {
    data[i] && i < |clickable| && clickable[i] < |cells| && !cells[clickable[i]].selected
  }

  /** The cells the first `m` steps of the click loop click, in click order. */
  function ClickTrace(data: seq<bool>, clickable: seq<nat>, cells: seq<Cell>, m: nat): (clicked: seq<nat>)
    requires m <= |data|
    ensures |clicked| <= CountTrue(data[..m])
  {
    if m == 0 then []
    else
      assert data[..m][..m - 1] == data[..m - 1];
      ClickTrace(data, clickable, cells, m - 1)
        + (if ClicksAt(data, clickable, cells, m - 1) then [clickable[m - 1]] else [])
  }

  /** A cell is clicked exactly when some tile maps to it, matched and found it
      unselected: no other cell is touched. */
  lemma {:induction false} ClickedIff(data: seq<bool>, clickable: seq<nat>, cells: seq<Cell>, m: nat, c: nat)
    requires m <= |data|
    ensures c in ClickTrace(data, clickable, cells, m) <==>
      exists i :: 0 <= i < m && ClicksAt(data, clickable, cells, i) && clickable[i] == c
  {
    if m > 0 {
      ClickedIff(data, clickable, cells, m - 1, c);
      if ClicksAt(data, clickable, cells, m - 1) && clickable[m - 1] == c {
        assert c in ClickTrace(data, clickable, cells, m);
      }
    }
  }

  /** Every clicked cell was unselected before the round. */
  lemma ClickedWereUnselected(data: seq<bool>, clickable: seq<nat>, cells: seq<Cell>, c: nat)
    requires c in ClickTrace(data, clickable, cells, |data|)
    ensures c < |cells| && !cells[c].selected
  {
    ClickedIff(data, clickable, cells, |data|, c);
  }

  /** The click loop: count every match and click the matched cells that are not
      selected yet. */
  method ClickMatches(data: seq<bool>, clickable: seq<nat>, cells: seq<Cell>) returns (clicks: nat, clicked: seq<nat>)
    ensures clicks == CountTrue(data)
    ensures clicked == ClickTrace(data, clickable, cells, |data|)
  {
    clicks, clicked := 0, [];
    var i := 0;
    while i < |data|
      invariant 0 <= i <= |data|
      invariant clicks == CountTrue(data[..i])
      invariant clicked == ClickTrace(data, clickable, cells, i)
    {
      assert data[..i + 1][..i] == data[..i];
      if data[i] {
        clicks := clicks + 1;
        if i < |clickable| && clickable[i] < |cells| && !cells[clickable[i]].selected {
          clicked := clicked + [clickable[i]];
        }
      }
      i := i + 1;
    }
    assert data[..i] == data;
  }

  /** The submit condition: a 4 by 4 grid always; a 3 by 3 grid when it is not a
      hard challenge, or when nothing was clicked and the images are ready again. */
  predicate ShouldSubmit(n: nat, isHard: bool, clicks: nat, ready: bool): (submit: bool)
    ensures submit ==> n == 3 || n == 4
    ensures n == 4 ==> submit
  {
    || (n == 3 && isHard && clicks == 0 && ready)
    || (n == 3 && !isHard)
    || n == 4
  }

  /** For the two grid sizes the round produces, the truth table reads: every 4 by 4
      round submits; a 3 by 3 round submits unless it is hard and either clicked
      something or found the images not ready. */
  lemma SubmitTable(n: nat, isHard: bool, clicks: nat, ready: bool)
    requires n == 3 || n == 4
    ensures n == 4 ==> ShouldSubmit(n, isHard, clicks, ready)
    ensures n == 3 && !isHard ==> ShouldSubmit(n, isHard, clicks, ready)
    ensures n == 3 && isHard ==> (ShouldSubmit(n, isHard, clicks, ready) <==> clicks == 0 && ready)
  {
  }
}
