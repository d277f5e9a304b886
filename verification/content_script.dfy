/** The content script's state across ticks (src/recaptcha.js:156, 503-505) and the
    steps that update it: the poll tick, the widget-frame tick, the checks at the head
    of an image-frame tick, and a solving round (src/recaptcha.js:156-214, 263-447,
    507-517). */
module ContentScript {
  import opened Wrappers
  import opened Text
  import opened Task
  import opened Grid
  import opened Selection
  import opened History
  import opened Round

  /** The page facts an image-frame tick checks before working: the rate-limit banner,
      `is_solved()`, the incorrect-answer banner, the select-more family of errors,
      and whether `on_images_ready` reported the tiles loaded. */
  datatype Signals = Signals(
    rateLimited: bool,
    solved: bool,
    incorrectShown: bool,
    errorShown: bool,
    imagesReady: bool)

  /** Whether the tick goes on to solve, and the new `was_incorrect` and history. */
  datatype GateResult = GateResult(proceed: bool, wasIncorrect: bool, history: seq<Option<string>>)

  /** The head of `on_image_frame`, up to the wait for the task. A tick goes on to
      solve exactly when the frame is not rate limited, not solved, shows no
      select-more error and its images loaded. */
  function Gate(wasIncorrect: bool, history: seq<Option<string>>, sig: Signals): (g: GateResult)
    ensures g.proceed <==> !sig.rateLimited && !sig.solved && !sig.errorShown && sig.imagesReady
  {
    if sig.rateLimited || sig.solved then GateResult(false, wasIncorrect, history)
    else
      var incorrectNow := !wasIncorrect && sig.incorrectShown;
      var h := if incorrectNow then [] else history;
      if sig.errorShown then GateResult(false, incorrectNow, [])
      else GateResult(sig.imagesReady, incorrectNow, h)
  }

  /** While rate limited or solved, a tick changes nothing. */
  lemma GateWaitsQuietly(w: bool, h: seq<Option<string>>, sig: Signals)
    requires sig.rateLimited || sig.solved
    ensures Gate(w, h, sig) == GateResult(false, w, h)
  {
  }

  /** Past those two checks: `was_incorrect` becomes set exactly when the incorrect
      banner shows and it was clear; the history is emptied exactly when that happens
      or a select-more error shows, and is kept otherwise. */
  lemma GateFlags(w: bool, h: seq<Option<string>>, sig: Signals)
    requires !sig.rateLimited && !sig.solved
    ensures Gate(w, h, sig).wasIncorrect <==> !w && sig.incorrectShown
    ensures (!w && sig.incorrectShown) || sig.errorShown ==> Gate(w, h, sig).history == []
    ensures !(!w && sig.incorrectShown) && !sig.errorShown ==> Gate(w, h, sig).history == h
  {
  }

  /** `k` consecutive image-frame ticks on an unchanged page. */
  function GateRepeat(w: bool, h: seq<Option<string>>, sig: Signals, k: nat): (g: GateResult)
    ensures k == 0 ==> g.wasIncorrect == w && g.history == h
  {
    if k == 0 then GateResult(false, w, h)
    else
      var prev := GateRepeat(w, h, sig, k - 1);
      Gate(prev.wasIncorrect, prev.history, sig)
  }

  /** While the incorrect banner stays up, `was_incorrect` flips on every tick, and
      every tick that sets it has emptied the history. */
  lemma {:induction false} IncorrectAlternates(w: bool, h: seq<Option<string>>, sig: Signals, k: nat)
    requires !sig.rateLimited && !sig.solved && sig.incorrectShown
    ensures GateRepeat(w, h, sig, k).wasIncorrect == (if k % 2 == 0 then w else !w)
    ensures k > 0 && GateRepeat(w, h, sig, k).wasIncorrect ==> GateRepeat(w, h, sig, k).history == []
  {
    if k > 0 {
      IncorrectAlternates(w, h, sig, k - 1);
      var prev := GateRepeat(w, h, sig, k - 1);
      GateFlags(prev.wasIncorrect, prev.history, sig);
    }
  }

  /** Which handler the driver loop runs: the widget frame is checked first. */
  datatype Frame = WidgetTick | ImageTick | Idle

  function Dispatch(isWidgetFrame: bool, isImageFrame: bool): (f: Frame)
    ensures f == WidgetTick <==> isWidgetFrame
    ensures f == ImageTick <==> !isWidgetFrame && isImageFrame
    ensures f == Idle <==> !isWidgetFrame && !isImageFrame
  {
    if isWidgetFrame then WidgetTick
    else if isImageFrame then ImageTick
    else Idle
  }

  /** How a solving round ends: the label has no classifier (opening the model
      `undefined` fails, and the round stops before any click), or the round ran. */
  datatype Outcome =
    | UnknownLabel(name: string)
    | Completed(clicked: seq<nat>, clicks: nat, submit: bool)

  /** The module-level variables of the content script. */
  class Session {
    /** `last_urls_hash`, the fingerprint of the last grid handed out. */
    var lastHash: Option<Fingerprint>
    var wasSolved: bool
    var wasIncorrect: bool
    /** `solved_urls`, the recently classified URL entries. */
    var solvedUrls: seq<Option<string>>

    /** The history never holds more than nine entries. */
    predicate Valid()
      reads this
    {
      |solvedUrls| <= Cap
    }

    constructor ()
      ensures Valid()
      ensures lastHash == None && !wasSolved && !wasIncorrect && solvedUrls == []
    {
      lastHash := None;
      wasSolved := false;
      wasIncorrect := false;
      solvedUrls := [];
    }

    /** `on_widget_frame`: latch `was_solved` while the checkbox is ticked; otherwise
        clear it and open the image challenge. */
    method WidgetFrame(isSolved: bool) returns (openImage: bool)
      requires Valid()
      modifies this
      ensures Valid()
      ensures wasSolved == isSolved && openImage == !isSolved
      ensures lastHash == old(lastHash) && wasIncorrect == old(wasIncorrect) && solvedUrls == old(solvedUrls)
    {
      if isSolved {
        if !wasSolved {
          wasSolved := true;
        }
        return false;
      }
      wasSolved := false;
      openImage := true;
    }

    /** The head of `on_image_frame`: the rate-limit and solved checks, the
        incorrect-answer flag, the select-more error and the wait for images. */
    method ImageFrameGate(sig: Signals) returns (proceed: bool)
      requires Valid()
      modifies this
      ensures Valid()
      ensures var g := Gate(old(wasIncorrect), old(solvedUrls), sig);
        proceed == g.proceed && wasIncorrect == g.wasIncorrect && solvedUrls == g.history
      ensures lastHash == old(lastHash) && wasSolved == old(wasSolved)
    {
      if sig.rateLimited {
        return false;
      }
      if sig.solved {
        return false;
      }
      if !wasIncorrect && sig.incorrectShown {
        solvedUrls := [];
        wasIncorrect := true;
      } else {
        wasIncorrect := false;
      }
      if sig.errorShown {
        solvedUrls := [];
        return false;
      }
      proceed := sig.imagesReady;
    }

    /** One tick of `on_task_ready`'s poll: read the task, check the cell count, scan
        the cells and compare the fingerprint with the last one. */
    method PollTick(snap: Snapshot) returns (poll: Poll)
      requires Valid()
      modifies this
      ensures Valid()
      ensures var t := Tick(snap, old(lastHash)); poll == t.poll && lastHash == t.lastHash
      ensures wasSolved == old(wasSolved) && wasIncorrect == old(wasIncorrect) && solvedUrls == old(solvedUrls)
    {
      var taskLines := if snap.instructions.None? then None else Some(Split(snap.instructions.value, '\n'));
      var task := GetTask(taskLines);
      if task.Err? {
        return Threw(task.error);
      }
      if task.value.None? {
        return NotReady;
      }
      var isHard := IsHard(taskLines.value);
      if |snap.cells| != 9 && |snap.cells| != 16 {
        return NotReady;
      }
      var complete, background, urls := ScanCells(snap.cells);
      if !complete {
        return NotReady;
      }
      var fp := Fingerprint(background, urls);
      if lastHash == Some(fp) {
        return NotReady;
      }
      lastHash := Some(fp);
      poll := Ready(ChallengeState(task.value.value, isHard, snap.cells, background, urls));
    }

    /** The `solved_urls` loop: push every entry of `urls`, shifting past nine. */
    method RecordUrls(urls: seq<Option<string>>)
      requires Valid()
      modifies this
      ensures Valid()
      ensures solvedUrls == RecordAll(old(solvedUrls), urls)
      ensures lastHash == old(lastHash) && wasSolved == old(wasSolved) && wasIncorrect == old(wasIncorrect)
    {
      var i := 0;
      while i < |urls|
        invariant 0 <= i <= |urls|
        invariant solvedUrls == RecordAll(old(solvedUrls), urls[..i])
        invariant lastHash == old(lastHash) && wasSolved == old(wasSolved) && wasIncorrect == old(wasIncorrect)
      {
        assert urls[..i + 1][..i] == urls[..i];
        solvedUrls := solvedUrls + [urls[i]];
        if |solvedUrls| > Cap {
          solvedUrls := solvedUrls[1..];
        }
        i := i + 1;
      }
      assert urls[..i] == urls;
      RecordBounded(old(solvedUrls), urls);
    }

    /** The rest of `on_image_frame` once the task is ready: pick the live pictures,
        canonicalise the label, classify, click, record the round's URLs and decide
        whether to submit. `width` is the background picture's width, `score` the
        networks, `readyAgain` the second `on_images_ready`. */
    method SolveRound(st: ChallengeState, width: nat, score: (string, SubImage) -> seq<int>, readyAgain: bool)
      returns (out: Outcome)
      requires Valid()
      modifies this
      ensures Valid()
      ensures lastHash == old(lastHash) && wasSolved == old(wasSolved) && wasIncorrect == old(wasIncorrect)
      ensures var name := CanonicalLabel(st.task);
        ModelKey(name).None? ==> out == UnknownLabel(name) && solvedUrls == old(solvedUrls)
      ensures var model := ModelKey(CanonicalLabel(st.task));
        model.Some? ==>
          var data := Verdicts(model.value, SubImagesOf(st, old(solvedUrls), width), score);
          && out.Completed?
          && out.clicked == ClickTrace(data, Clickable(st, old(solvedUrls)), st.cells, |data|)
          && out.clicks == CountTrue(data)
          && out.submit == ShouldSubmit(GridSize(|st.cells|), st.isHard, CountTrue(data), readyAgain)
          && solvedUrls == RecordAll(old(solvedUrls), st.urls)
    {
      var imageUrls, clickable := FilterLive(st, solvedUrls);
      var n := GridSize(|st.cells|);
      var name := CanonicalLabel(st.task);
      var subs := CollectSubImages(st, imageUrls, solvedUrls, width);
      var model := ModelKey(name);
      if model.None? {
        return UnknownLabel(name);
      }
      var data := Classify(model.value, subs, score);
      var clicks, clicked := ClickMatches(data, clickable, st.cells);
      RecordUrls(st.urls);
      out := Completed(clicked, clicks, ShouldSubmit(n, st.isHard, clicks, readyAgain));
    }
  }
}
