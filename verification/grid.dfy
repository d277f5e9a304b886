/** The challenge grid as the poll tick of `on_task_ready` sees it
    (src/recaptcha.js:127-129, 156-214), and the live-cell filter of
    `on_image_frame` (src/recaptcha.js:326-341). */
module Grid {
  import opened Wrappers
  import opened Text
  import opened Task

  /** The `<img>` inside a cell: its `src` (absent when the property is missing)
      and its `naturalWidth`. */
  datatype Image = Image(src: Option<string>, naturalWidth: nat)

  /** A `table tr td` of the challenge: the image it holds, if any, and whether it
      carries the `rc-imageselect-tileselected` class. */
  datatype Cell = Cell(img: Option<Image>, selected: bool)

  /** What one poll tick reads: the `innerText` of the instructions element
      (absent when the element is missing) and the table cells, in document order. */
  datatype Snapshot = Snapshot(instructions: Option<string>, cells: seq<Cell>)

  /** The change-detection key `JSON.stringify([background_url, urls])`. */
  datatype Fingerprint = Fingerprint(background: Option<string>, urls: seq<Option<string>>)

  /** What a successful tick resolves with. */
  datatype ChallengeState = ChallengeState(
    task: string,
    isHard: bool,
    cells: seq<Cell>,
    background: Option<string>,
    urls: seq<Option<string>>)

  /** A poll tick either throws (inside `get_task`), finds nothing new, or resolves. */
  datatype Poll = Threw(error: TaskError) | NotReady | Ready(state: ChallengeState)

  datatype TickResult = TickResult(poll: Poll, lastHash: Option<Fingerprint>)

  /** The image URL of a cell, `get_image_url` followed by the `!url` test:
      the trimmed `src`, or `None` when there is no image or the URL is empty. */
  function CellUrl(c: Cell): (url: Option<string>)
    ensures url.Some? ==> url.value != [] && Trimmed(url.value)
    ensures url.Some? ==> c.img.Some? && c.img.value.src.Some?
  {
    match c.img
    case None => None
    case Some(img) =>
      match img.src
      case None => None
      case Some(src) => if Trim(src) == [] then None else Some(Trim(src))
  }

  /** A cell's URL is its trimmed `src`, and it is missing exactly when there is no
      image, no `src`, or a `src` of nothing but whitespace. */
  lemma CellUrlIsTrimmedSrc(c: Cell)
    ensures CellUrl(c).Some? ==> CellUrl(c).value == Trim(c.img.value.src.value)
    ensures CellUrl(c).Some? <==> c.img.Some? && c.img.value.src.Some? && !AllSpace(c.img.value.src.value)
  {
  }

  function Width(c: Cell): nat {
    if c.img.Some? then c.img.value.naturalWidth else 0
  }

  predicate AllHaveUrls(cells: seq<Cell>) {
    forall i :: 0 <= i < |cells| ==> CellUrl(cells[i]).Some?
  }

  /** A 100-pixel-wide image is one cell's own picture. */
  predicate IsSecondary(c: Cell) {
    Width(c) == 100
  }

  /** A picture at least 300 pixels wide is the background of the whole grid. */
  predicate IsWide(c: Cell) {
    Width(c) >= 300
  }

  predicate HasSecondary(cells: seq<Cell>) {
    exists i :: 0 <= i < |cells| && IsSecondary(cells[i])
  }

  /** A cell's entry in `urls`: its URL when its image is 100 pixels wide, else null. */
  function UrlEntry(c: Cell): Option<string> {
    if IsSecondary(c) then CellUrl(c) else None
  }

  /** The per-cell URL list. */
  function PerCellUrls(cells: seq<Cell>): (urls: seq<Option<string>>)
    ensures |urls| == |cells|
    ensures forall i :: 0 <= i < |cells| ==> urls[i] == UrlEntry(cells[i])
  {
    seq(|cells|, i requires 0 <= i < |cells| => UrlEntry(cells[i]))
  }

  /** The index of the last wide cell among the first `n`, if any. */
  function LastWideIn(cells: seq<Cell>, n: nat): (k: Option<nat>)
    requires n <= |cells|
    ensures k.Some? ==> k.value < n && IsWide(cells[k.value])
    ensures k.Some? ==> forall j :: k.value < j < n ==> !IsWide(cells[j])
    ensures k.None? ==> forall j :: 0 <= j < n ==> !IsWide(cells[j])
  {
    if n == 0 then None
    else if IsWide(cells[n - 1]) then Some(n - 1)
    else LastWideIn(cells, n - 1)
  }

  /** The index of the last wide cell, if any. */
  function LastWideIndex(cells: seq<Cell>): (k: Option<nat>)
    ensures k.Some? ==> k.value < |cells| && IsWide(cells[k.value])
    ensures k.Some? ==> forall j :: k.value < j < |cells| ==> !IsWide(cells[j])
    ensures k.None? ==> forall j :: 0 <= j < |cells| ==> !IsWide(cells[j])
  {
    LastWideIn(cells, |cells|)
  }

  /** The URL of the last wide cell among the first `n`, or `None` when none is wide. */
  function LastWideUpTo(cells: seq<Cell>, n: nat): Option<string>
    requires n <= |cells|
  {
    match LastWideIn(cells, n)
    case None => None
    case Some(k) => CellUrl(cells[k])
  }

  /** Scanning one more cell moves the background to that cell exactly when it is wide. */
  lemma LastWideStep(cells: seq<Cell>, i: nat)
    requires i < |cells|
    ensures LastWideUpTo(cells, i + 1) == if IsWide(cells[i]) then CellUrl(cells[i]) else LastWideUpTo(cells, i)
  {
  }

  /** The URL of the last wide cell, or `None` when no cell is wide. */
  function LastWide(cells: seq<Cell>): Option<string> {
    LastWideUpTo(cells, |cells|)
  }

  /** `background_url` after the scan: nulled out as soon as one secondary image exists. */
  function BackgroundOf(cells: seq<Cell>): Option<string> {
    if HasSecondary(cells) then None else LastWide(cells)
  }

  function FingerprintOf(cells: seq<Cell>): Fingerprint {
    Fingerprint(BackgroundOf(cells), PerCellUrls(cells))
  }

  /** A background URL is the URL of the last wide cell of a grid without any
      100-pixel image, so it excludes every per-cell URL; on a grid whose cells all
      have URLs, there is one exactly when no image is 100 pixels wide and some image
      is at least 300 pixels wide. */
  lemma BackgroundIsLastWide(cells: seq<Cell>)
    ensures BackgroundOf(cells).Some? ==>
      && LastWideIndex(cells).Some?
      && BackgroundOf(cells) == CellUrl(cells[LastWideIndex(cells).value])
      && forall i :: 0 <= i < |cells| ==> !IsSecondary(cells[i]) && PerCellUrls(cells)[i].None?
    ensures AllHaveUrls(cells) ==>
      (BackgroundOf(cells).Some? <==> !HasSecondary(cells) && exists i :: 0 <= i < |cells| && IsWide(cells[i]))
  {
    if AllHaveUrls(cells) && !HasSecondary(cells) {
      match LastWideIndex(cells)
      case None =>
      case Some(k) => assert CellUrl(cells[k]).Some?;
    }
  }

  /** The last-wide search looks at the images only. */
  lemma {:induction false} LastWideInSameImages(a: seq<Cell>, b: seq<Cell>, n: nat)
    requires |a| == |b| && n <= |a|
    requires forall i :: 0 <= i < |a| ==> a[i].img == b[i].img
    ensures LastWideIn(a, n) == LastWideIn(b, n)
  {
    if n > 0 {
      assert Width(a[n - 1]) == Width(b[n - 1]);
      LastWideInSameImages(a, b, n - 1);
    }
  }

  /** Selecting tiles leaves the fingerprint alone: two grids whose cells hold the same
      images have the same fingerprint, whichever cells are selected. */
  lemma FingerprintIgnoresSelection(a: seq<Cell>, b: seq<Cell>)
    requires |a| == |b|
    requires forall i :: 0 <= i < |a| ==> a[i].img == b[i].img
    ensures FingerprintOf(a) == FingerprintOf(b)
  {
    forall i | 0 <= i < |a| ensures UrlEntry(a[i]) == UrlEntry(b[i]) {
      assert Width(a[i]) == Width(b[i]);
    }
    assert PerCellUrls(a) == PerCellUrls(b);
    assert HasSecondary(a) == HasSecondary(b) by {
      if HasSecondary(a) {
        var i :| 0 <= i < |a| && IsSecondary(a[i]);
        assert Width(a[i]) == Width(b[i]);
      }
      if HasSecondary(b) {
        var i :| 0 <= i < |b| && IsSecondary(b[i]);
        assert Width(a[i]) == Width(b[i]);
      }
    }
    LastWideInSameImages(a, b, |a|);
    match LastWideIn(a, |a|)
    case None =>
    case Some(k) => assert CellUrl(a[k]) == CellUrl(b[k]);
  }

  /** The `for…of` scan over the cells: stop at the first cell without an image or
      URL; otherwise record per-cell URLs, the last background URL, and whether a
      secondary image was seen. */
  method ScanCells(cells: seq<Cell>) returns (complete: bool, background: Option<string>, urls: seq<Option<string>>)
    ensures complete <==> AllHaveUrls(cells)
    ensures complete ==> background == BackgroundOf(cells) && urls == PerCellUrls(cells)
  {
    urls := seq(|cells|, _ => None);
    background := None;
    var hasSecondary := false;
    var i := 0;
    while i < |cells|
      invariant 0 <= i <= |cells|
      invariant forall k :: 0 <= k < i ==> CellUrl(cells[k]).Some?
      invariant |urls| == |cells|
      invariant forall k :: 0 <= k < i ==> urls[k] == UrlEntry(cells[k])
      invariant forall k :: i <= k < |cells| ==> urls[k] == None
      invariant background == LastWideUpTo(cells, i)
      invariant hasSecondary <==> exists k :: 0 <= k < i && IsSecondary(cells[k])
    {
      var url := CellUrl(cells[i]);
      if url.None? {
        assert !AllHaveUrls(cells);
        return false, background, urls;
      }
      background, urls, hasSecondary := ScanCell(cells[i], url.value, i, background, urls, hasSecondary);
      LastWideStep(cells, i);
      i := i + 1;
    }
    if hasSecondary {
      background := None;
    }
    complete := true;
  }

  /** The body of the scan for one cell with URL `url` at index `i`: a wide image
      becomes the background, a 100-pixel image records its URL and marks a
      secondary image. */
  method ScanCell(c: Cell, url: string, i: nat, background: Option<string>, urls: seq<Option<string>>, hasSecondary: bool)
    returns (background': Option<string>, urls': seq<Option<string>>, hasSecondary': bool)
    requires CellUrl(c) == Some(url) && i < |urls| && urls[i] == None
    ensures background' == if IsWide(c) then Some(url) else background
    ensures |urls'| == |urls| && urls'[i] == UrlEntry(c)
    ensures forall k :: 0 <= k < |urls| && k != i ==> urls'[k] == urls[k]
    ensures hasSecondary' <==> hasSecondary || IsSecondary(c)
  {
    background', urls', hasSecondary' := background, urls, hasSecondary;
    if Width(c) >= 300 {
      background' := Some(url);
    } else if Width(c) == 100 {
      urls' := urls[i := Some(url)];
      hasSecondary' := true;
    }
  }

  /** `on_task_ready`'s poll tick, from the snapshot and the last fingerprint seen. */
  function Tick(snap: Snapshot, lastHash: Option<Fingerprint>): (r: TickResult)
    ensures r.poll.NotReady? || r.poll.Threw? ==> r.lastHash == lastHash
    ensures r.poll.Ready? ==>
      var st := r.poll.state;
      && snap.instructions.Some?
      && GetTask(Some(Split(snap.instructions.value, '\n'))) == Ok(Some(st.task))
      && (st.isHard <==> |Split(snap.instructions.value, '\n')| == 3)
      && (st.isHard <==> Count(snap.instructions.value, '\n') == 2)
      && st.cells == snap.cells
      && (|st.cells| == 9 || |st.cells| == 16)
      && AllHaveUrls(st.cells)
      && r.lastHash == Some(Fingerprint(st.background, st.urls))
      && r.lastHash != lastHash
  {
    var taskLines := if snap.instructions.None? then None else Some(Split(snap.instructions.value, '\n'));
    match GetTask(taskLines)
    case Err(e) => TickResult(Threw(e), lastHash)
    case Ok(None) => TickResult(NotReady, lastHash)
    case Ok(Some(task)) =>
      var isHard := IsHard(taskLines.value);
      HardIffTwoLineFeeds(snap.instructions.value);
      var cells := snap.cells;
      if |cells| != 9 && |cells| != 16 then TickResult(NotReady, lastHash)
      else if !AllHaveUrls(cells) then TickResult(NotReady, lastHash)
      else
        var fp := FingerprintOf(cells);
        if lastHash == Some(fp) then TickResult(NotReady, lastHash)
        else TickResult(Ready(ChallengeState(task, isHard, cells, fp.background, fp.urls)), Some(fp))
  }

  /** A tick resolves exactly when there is a task text, 9 or 16 cells each holding an
      image with a non-empty URL, and a fingerprint different from the last one. */
  lemma TickReadyIff(snap: Snapshot, lastHash: Option<Fingerprint>)
    ensures Tick(snap, lastHash).poll.Ready? <==>
      && snap.instructions.Some?
      && GetTask(Some(Split(snap.instructions.value, '\n'))).Ok?
      && GetTask(Some(Split(snap.instructions.value, '\n'))).value.Some?
      && (|snap.cells| == 9 || |snap.cells| == 16)
      && AllHaveUrls(snap.cells)
      && lastHash != Some(FingerprintOf(snap.cells))
  {
  }

  /** A tick throws exactly when `get_task` does: reading `length` of `undefined` when
      the instructions element is missing, and calling `join` on `null` when its text
      has no line feed. */
  lemma TickThrowsIff(snap: Snapshot, lastHash: Option<Fingerprint>)
    ensures Tick(snap, lastHash).poll.Threw? <==>
      snap.instructions.None? || |Split(snap.instructions.value, '\n')| <= 1
    ensures Tick(snap, lastHash).poll == Threw(LinesUndefined) <==> snap.instructions.None?
    ensures Tick(snap, lastHash).poll == Threw(JoinOnNull) <==>
      snap.instructions.Some? && Count(snap.instructions.value, '\n') == 0
  {
  }

  /** A second tick on an unchanged snapshot finds nothing new and keeps the fingerprint. */
  lemma TickTwiceNothingNew(snap: Snapshot, lastHash: Option<Fingerprint>)
    ensures var first := Tick(snap, lastHash);
      var second := Tick(snap, first.lastHash);
      !second.poll.Ready? && second.lastHash == first.lastHash
  {
  }

  /** How a resolved state assigns URLs by width: only 100-pixel cells carry a
      per-cell URL; any such cell nulls the background; otherwise the background is
      the URL of the last cell at least 300 pixels wide, if any. */
  lemma ReadyUrlsByWidth(snap: Snapshot, lastHash: Option<Fingerprint>)
    requires Tick(snap, lastHash).poll.Ready?
    ensures var st := Tick(snap, lastHash).poll.state;
      && |st.urls| == |st.cells|
      && (forall i :: 0 <= i < |st.cells| ==> (st.urls[i].Some? <==> IsSecondary(st.cells[i])))
      && (forall i :: 0 <= i < |st.cells| && st.urls[i].Some? ==> st.urls[i] == CellUrl(st.cells[i]))
      && (HasSecondary(st.cells) ==> st.background.None?)
      && (!HasSecondary(st.cells) ==> st.background == LastWide(st.cells))
      && (st.background.Some? ==> forall i :: 0 <= i < |st.urls| ==> st.urls[i].None?)
  {
    var st := Tick(snap, lastHash).poll.state;
    forall i | 0 <= i < |st.cells| && !IsSecondary(st.cells[i]) ensures st.urls[i].None? {
    }
    if st.background.Some? {
      assert !HasSecondary(st.cells);
    }
  }

  /** `n`: a 3 by 3 grid for 9 cells, 4 by 4 otherwise. */
  function GridSize(cellCount: nat): (n: nat)
    ensures cellCount == 9 || cellCount == 16 ==> n * n == cellCount
    ensures n == 3 <==> cellCount == 9
  {
    if cellCount == 9 then 3 else 4
  }

  /** The cells still worth classifying in per-cell mode: those whose URL is present
      and not in the solved history, in grid order. */
  function LiveIndices(urls: seq<Option<string>>, solved: seq<Option<string>>): (live: seq<nat>)
    ensures forall j :: 0 <= j < |live| ==> live[j] < |urls| && urls[live[j]].Some? && urls[live[j]] !in solved
    ensures forall i :: 0 <= i < |urls| && urls[i].Some? && urls[i] !in solved ==> i in live
    ensures forall j, k :: 0 <= j < k < |live| ==> live[j] < live[k]
  {
    if urls == [] then []
    else
      var k := |urls| - 1;
      var init := LiveIndices(urls[..k], solved);
      if urls[k].Some? && urls[k] !in solved then init + [k] else init
  }

  /** The URLs of the live cells, in grid order: `image_urls` in per-cell mode. */
  function LiveUrls(urls: seq<Option<string>>, solved: seq<Option<string>>): (r: seq<string>)
    ensures var live := LiveIndices(urls, solved);
      |r| == |live| && forall j :: 0 <= j < |live| ==> urls[live[j]] == Some(r[j])
  {
    var live := LiveIndices(urls, solved);
    seq(|live|, j requires 0 <= j < |live| => urls[live[j]].value)
  }

  function AllIndices(n: nat): (r: seq<nat>)
    ensures |r| == n && forall i :: 0 <= i < n ==> r[i] == i
  {
    seq(n, i requires 0 <= i < n => i)
  }

  /** The `image_urls` / `clickable_cells` construction; clickable cells are given by
      their index in the grid. */
  method FilterLive(st: ChallengeState, solved: seq<Option<string>>) returns (imageUrls: seq<string>, clickable: seq<nat>)
    ensures st.background.None? ==> clickable == LiveIndices(st.urls, solved) && imageUrls == LiveUrls(st.urls, solved)
    ensures st.background.Some? ==> imageUrls == [st.background.value] && clickable == AllIndices(|st.cells|)
  {
    imageUrls, clickable := [], [];
    if st.background.None? {
      var i := 0;
      while i < |st.urls|
        invariant 0 <= i <= |st.urls|
        invariant clickable == LiveIndices(st.urls[..i], solved)
        invariant imageUrls == LiveUrls(st.urls[..i], solved)
      {
        var url := st.urls[i];
        LiveStep(st.urls, solved, i);
        if url.Some? && url !in solved {
          imageUrls := imageUrls + [url.value];
          clickable := clickable + [i];
        }
        i := i + 1;
      }
      assert st.urls[..i] == st.urls;
    } else {
      imageUrls := [st.background.value];
      clickable := AllIndices(|st.cells|);
    }
  }

  /** How the live cells and their URLs grow by one cell. */
  lemma LiveStep(urls: seq<Option<string>>, solved: seq<Option<string>>, i: nat)
    requires i < |urls|
    ensures var live := urls[i].Some? && urls[i] !in solved;
      && LiveIndices(urls[..i + 1], solved) == LiveIndices(urls[..i], solved) + (if live then [i] else [])
      && LiveUrls(urls[..i + 1], solved) == LiveUrls(urls[..i], solved) + (if live then [urls[i].value] else [])
  {
    assert urls[..i + 1][..i] == urls[..i];
    var pre, next := urls[..i], urls[..i + 1];
    var a, b := LiveIndices(pre, solved), LiveIndices(next, solved);
    forall j | 0 <= j < |a| ensures next[b[j]] == pre[a[j]] {
      assert b[j] == a[j];
    }
  }
}
