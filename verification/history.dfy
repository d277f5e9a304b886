/** The `solved_urls` history: every entry of a round's `urls` is appended and the
    oldest entries are evicted beyond nine (src/recaptcha.js:435-440). */
module History {
  import opened Wrappers

  const Cap: nat := 9

  /** One `push` followed by the `shift` when the history grew past the cap. */
  function Push(h: seq<Option<string>>, u: Option<string>): (h': seq<Option<string>>)
    ensures |h'| <= |h| + 1 && (|h| <= Cap ==> |h'| <= Cap)
    ensures h' != [] && h'[|h'| - 1] == u
    ensures |h| < Cap ==> h' == h + [u]
  {
    var p := h + [u];
    if |p| > Cap then p[1..] else p
  }

  /** The history after recording all of `us`, one entry at a time in order: it ends
      with the last entry recorded, and nothing is dropped while it stays within the
      cap. */
  function RecordAll(h: seq<Option<string>>, us: seq<Option<string>>): (h': seq<Option<string>>)
    ensures us != [] ==> h' != [] && h'[|h'| - 1] == us[|us| - 1]
    ensures |h| + |us| <= Cap ==> h' == h + us
  {
    if us == [] then h
    else Push(RecordAll(h, us[..|us| - 1]), us[|us| - 1])
  }

  function Min(a: nat, b: nat): nat {
    if a <= b then a else b
  }

  /** The last `m` entries of `s`. */
  function Last<T>(s: seq<T>, m: nat): (r: seq<T>)
    requires m <= |s|
    ensures |r| == m
  {
    s[|s| - m..]
  }

  /** Pushing onto the last `m` entries of `s` gives the last `min(9, m + 1)`
      entries of `s` followed by the new one. */
  lemma PushKeepsLast(s: seq<Option<string>>, u: Option<string>, m: nat)
    requires m <= |s| && m <= Cap
    ensures Push(Last(s, m), u) == Last(s + [u], Min(Cap, m + 1))
  {
    var ext := Last(s, m) + [u];
    assert ext == Last(s + [u], m + 1);
    if m == Cap {
      assert ext[1..] == Last(s + [u], Cap);
    }
  }

  /** Starting from at most nine entries, recording keeps exactly the last
      `min(9, |h| + |us|)` entries of the history followed by the new URLs. */
  lemma {:induction false} RecordKeepsLastNine(h: seq<Option<string>>, us: seq<Option<string>>)
    requires |h| <= Cap
    ensures RecordAll(h, us) == Last(h + us, Min(Cap, |h| + |us|))
  {
    if us != [] {
      var init := us[..|us| - 1];
      var u := us[|us| - 1];
      RecordKeepsLastNine(h, init);
      assert us == init + [u];
      assert h + us == (h + init) + [u];
      PushKeepsLast(h + init, u, Min(Cap, |h| + |init|));
    }
  }

  /** Recording never lets the history grow past nine entries. */
  lemma RecordBounded(h: seq<Option<string>>, us: seq<Option<string>>)
    requires |h| <= Cap
    ensures |RecordAll(h, us)| <= Cap
  {
    RecordKeepsLastNine(h, us);
  }

  /** A round with at least nine URL entries leaves exactly its last nine entries,
      whatever the history held before. */
  lemma LongRoundReplacesHistory(h: seq<Option<string>>, us: seq<Option<string>>)
    requires |h| <= Cap && |us| >= Cap
    ensures RecordAll(h, us) == us[|us| - Cap..]
  {
    RecordKeepsLastNine(h, us);
    assert (h + us)[|h + us| - Cap..] == us[|us| - Cap..];
  }

  /** A background-mode round records only nulls, so after a full 3 by 3 or 4 by 4
      round the history holds nine nulls and filters no URL. */
  lemma NullRoundClearsUrls(h: seq<Option<string>>, us: seq<Option<string>>, url: string)
    requires |h| <= Cap && |us| >= Cap
    requires forall i :: 0 <= i < |us| ==> us[i].None?
    ensures |RecordAll(h, us)| == Cap
    ensures Some(url) !in RecordAll(h, us)
  {
    LongRoundReplacesHistory(h, us);
  }
}
