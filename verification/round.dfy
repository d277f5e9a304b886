/** The pure parts of one solving round of `on_image_frame` once the grid is ready
    (src/recaptcha.js:326-341, 380-418): which pictures are classified, against which
    cells their verdicts are clicked, and how the verdicts are formed. */
module Round {
  import opened Wrappers
  import opened Grid
  import opened Tiling
  import opened Selection

  /** A picture handed to the classifier: a per-cell image read from its URL, or one
      square cut out of the background picture. */
  datatype SubImage = Decoded(url: string) | Cropped(background: string, area: Rect)

  /** `clickable_cells`, as grid indices: distinct cells of the grid, in grid order. */
  function Clickable(st: ChallengeState, solved: seq<Option<string>>): (clickable: seq<nat>)
    ensures forall j, k :: 0 <= j < k < |clickable| ==> clickable[j] < clickable[k]
    ensures |st.urls| == |st.cells| ==> forall j :: 0 <= j < |clickable| ==> clickable[j] < |st.cells|
  {
    if st.background.None? then LiveIndices(st.urls, solved) else AllIndices(|st.cells|)
  }

  /** The pictures of the round, in the order they are classified: the live cells'
      images, or the `n * n` squares of the background, `width` being its pixel width. */
  function SubImagesOf(st: ChallengeState, solved: seq<Option<string>>, width: nat): (subs: seq<SubImage>)
    ensures st.background.None? ==> |subs| == |LiveIndices(st.urls, solved)|
    ensures st.background.Some? ==> |subs| == GridSize(|st.cells|) * GridSize(|st.cells|)
  {
    match st.background
    case None =>
      var urls := LiveUrls(st.urls, solved);
      seq(|urls|, j requires 0 <= j < |urls| => Decoded(urls[j]))
    case Some(bg) =>
      var crops := Crops(width, GridSize(|st.cells|));
      seq(|crops|, k requires 0 <= k < |crops| => Cropped(bg, crops[k]))
  }

  /** Fills `subImages`: one read per live URL, or the nested crop loops over the
      background. */
  method CollectSubImages(st: ChallengeState, imageUrls: seq<string>, solved: seq<Option<string>>, width: nat)
    returns (subs: seq<SubImage>)
    requires st.background.None? ==> imageUrls == LiveUrls(st.urls, solved)
    ensures subs == SubImagesOf(st, solved, width)
  {
    subs := [];
    if st.background.None? {
      var i := 0;
      while i < |imageUrls|
        invariant 0 <= i <= |imageUrls|
        invariant |subs| == i && forall j :: 0 <= j < i ==> subs[j] == Decoded(imageUrls[j])
      {
        subs := subs + [Decoded(imageUrls[i])];
        i := i + 1;
      }
    } else {
      var crops := TileCrops(width, GridSize(|st.cells|));
      var k := 0;
      while k < |crops|
        invariant 0 <= k <= |crops|
        invariant |subs| == k && forall j :: 0 <= j < k ==> subs[j] == Cropped(st.background.value, crops[j])
      {
        subs := subs + [Cropped(st.background.value, crops[k])];
        k := k + 1;
      }
    }
  }

  /** `data`: whether the classifier for `model` finds the object in each picture;
      `score` stands for the feature and classifier networks. */
  function Verdicts(model: string, subs: seq<SubImage>, score: (string, SubImage) -> seq<int>): (data: seq<bool>)
    ensures |data| == |subs|
    ensures forall i :: 0 <= i < |subs| ==> (data[i] <==> IsMatch(score(model, subs[i])))
  {
    seq(|subs|, i requires 0 <= i < |subs| => IsMatch(score(model, subs[i])))
  }

  /** The inference loop: one verdict per picture, in order. */
  method Classify(model: string, subs: seq<SubImage>, score: (string, SubImage) -> seq<int>) returns (data: seq<bool>)
    ensures data == Verdicts(model, subs, score)
  {
    data := [];
    var i := 0;
    while i < |subs|
      invariant 0 <= i <= |subs|
      invariant |data| == i && forall j :: 0 <= j < i ==> data[j] == IsMatch(score(model, subs[j]))
    {
      var output := score(model, subs[i]);
      data := data + [Argmax(output) == 1];
      i := i + 1;
    }
  }

  /** On a grid the tick accepted, there is exactly one picture per clickable cell,
      so verdict `i` always belongs to `clickable_cells[i]`. */
  lemma PicturesMatchCells(snap: Snapshot, lastHash: Option<Fingerprint>, solved: seq<Option<string>>, width: nat)
    requires Tick(snap, lastHash).poll.Ready?
    ensures var st := Tick(snap, lastHash).poll.state;
      |SubImagesOf(st, solved, width)| == |Clickable(st, solved)|
  {
    var st := Tick(snap, lastHash).poll.state;
    assert GridSize(|st.cells|) * GridSize(|st.cells|) == |st.cells|;
  }

  /** Picture `k` of a round is the picture of clickable cell `k`: in per-cell mode
      the image read from that cell's own URL, in background mode the square in row
      `k / n` and column `k % n` of the background, and the clickable cell is then
      cell `k` itself. */
  lemma PictureOfClickableCell(snap: Snapshot, lastHash: Option<Fingerprint>, st: ChallengeState,
                               solved: seq<Option<string>>, width: nat, k: nat)
    requires Tick(snap, lastHash).poll == Ready(st)
    requires k < |Clickable(st, solved)|
    ensures var cell := Clickable(st, solved)[k];
      && k < |SubImagesOf(st, solved, width)| && cell < |st.cells|
      && (st.background.None? ==>
            CellUrl(st.cells[cell]).Some? && SubImagesOf(st, solved, width)[k] == Decoded(CellUrl(st.cells[cell]).value))
      && (st.background.Some? ==>
            var n := GridSize(|st.cells|);
            cell == k && SubImagesOf(st, solved, width)[k] == Cropped(st.background.value, CropAt(width, n, k / n, k % n)))
  {
    PicturesMatchCells(snap, lastHash, solved, width);
    ReadyUrlsByWidth(snap, lastHash);
    if st.background.None? {
      LiveCellPicture(st, solved, width, k);
    } else {
      BackgroundPicture(st, solved, width, k);
    }
  }

  /** In per-cell mode, picture `k` is read from the URL of live cell `k`. */
  lemma LiveCellPicture(st: ChallengeState, solved: seq<Option<string>>, width: nat, k: nat)
    requires st.background.None? && k < |LiveIndices(st.urls, solved)|
    ensures var cell := LiveIndices(st.urls, solved)[k];
      && k < |SubImagesOf(st, solved, width)| && cell < |st.urls|
      && st.urls[cell].Some? && SubImagesOf(st, solved, width)[k] == Decoded(st.urls[cell].value)
  {
  }

  /** In background mode, picture `k` is the square in row `k / n` and column `k % n`. */
  lemma BackgroundPicture(st: ChallengeState, solved: seq<Option<string>>, width: nat, k: nat)
    requires st.background.Some? && (|st.cells| == 9 || |st.cells| == 16) && k < |st.cells|
    ensures var n := GridSize(|st.cells|);
      && k < |SubImagesOf(st, solved, width)| && Clickable(st, solved)[k] == k
      && SubImagesOf(st, solved, width)[k] == Cropped(st.background.value, CropAt(width, n, k / n, k % n))
  {
  }

  /** In per-cell mode a cell is live exactly when its image is 100 pixels wide and
      its URL has not been solved in the last rounds. */
  lemma LiveAreFreshSecondaries(snap: Snapshot, lastHash: Option<Fingerprint>, solved: seq<Option<string>>, i: nat)
    requires Tick(snap, lastHash).poll.Ready?
    requires Tick(snap, lastHash).poll.state.background.None?
    ensures var st := Tick(snap, lastHash).poll.state;
      i in LiveIndices(st.urls, solved) <==>
        i < |st.cells| && IsSecondary(st.cells[i]) && CellUrl(st.cells[i]) !in solved
  {
    ReadyUrlsByWidth(snap, lastHash);
  }

  /** A clicked cell is a clickable cell of the grid whose picture matched and which
      was not selected. */
  lemma ClickedCellsMatched(st: ChallengeState, solved: seq<Option<string>>, width: nat,
                            model: string, score: (string, SubImage) -> seq<int>, c: nat)
    requires var data := Verdicts(model, SubImagesOf(st, solved, width), score);
      c in ClickTrace(data, Clickable(st, solved), st.cells, |data|)
    ensures c < |st.cells| && !st.cells[c].selected
    ensures exists i ::
      && 0 <= i < |SubImagesOf(st, solved, width)| && i < |Clickable(st, solved)|
      && Clickable(st, solved)[i] == c && IsMatch(score(model, SubImagesOf(st, solved, width)[i]))
  {
    var data := Verdicts(model, SubImagesOf(st, solved, width), score);
    ClickedIff(data, Clickable(st, solved), st.cells, |data|, c);
  }

  /** A 3 by 3 background round whose verdicts match tiles 1 and 4 only, on a grid
      with nothing selected: cells 1 and 4 are clicked, in that order, two clicks
      are counted, and an easy challenge submits. */
  lemma TwoMatchesScenario(cells: seq<Cell>, data: seq<bool>)
    requires |cells| == 9 && forall i :: 0 <= i < 9 ==> !cells[i].selected
    requires |data| == 9 && forall k :: 0 <= k < 9 ==> (data[k] <==> k == 1 || k == 4)
    ensures ClickTrace(data, AllIndices(9), cells, 9) == [1, 4]
    ensures CountTrue(data) == 2
    ensures ShouldSubmit(GridSize(9), false, CountTrue(data), false)
  {
    TwoMatchesClicks(cells, data);
    TwoMatchesCount(data);
  }

  lemma TwoMatchesClicks(cells: seq<Cell>, data: seq<bool>)
    requires |cells| == 9 && forall i :: 0 <= i < 9 ==> !cells[i].selected
    requires |data| == 9 && forall k :: 0 <= k < 9 ==> (data[k] <==> k == 1 || k == 4)
    ensures ClickTrace(data, AllIndices(9), cells, 9) == [1, 4]
  {
    var all := AllIndices(9);
    assert ClickTrace(data, all, cells, 1) == [];
    assert ClickTrace(data, all, cells, 2) == [1];
    assert ClickTrace(data, all, cells, 3) == [1];
    assert ClickTrace(data, all, cells, 4) == [1];
    assert ClickTrace(data, all, cells, 5) == [1, 4];
    assert ClickTrace(data, all, cells, 6) == [1, 4];
    assert ClickTrace(data, all, cells, 7) == [1, 4];
    assert ClickTrace(data, all, cells, 8) == [1, 4];
  }

  lemma TwoMatchesCount(data: seq<bool>)
    requires |data| == 9 && forall k :: 0 <= k < 9 ==> (data[k] <==> k == 1 || k == 4)
    ensures CountTrue(data) == 2
  {
    assert data[..0] == [];
    CountPrefixStep(data, 1);
    CountPrefixStep(data, 2);
    CountPrefixStep(data, 3);
    CountPrefixStep(data, 4);
    CountPrefixStep(data, 5);
    CountPrefixStep(data, 6);
    CountPrefixStep(data, 7);
    CountPrefixStep(data, 8);
    CountPrefixStep(data, 9);
    assert data[..9] == data;
  }

  /** The count over the first `n` verdicts adds verdict `n - 1` to the count before it. */
  lemma CountPrefixStep(data: seq<bool>, n: nat)
    requires 0 < n <= |data|
    ensures CountTrue(data[..n]) == CountTrue(data[..n - 1]) + (if data[n - 1] then 1 else 0)
  {
    assert data[..n][..n - 1] == data[..n - 1];
  }
}
