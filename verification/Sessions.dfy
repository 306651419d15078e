/** Whole sessions at the host's console: rows saved, and scrolls by line, by page, to the top and to the
    bottom, in any order. */
module Sessions {
  import opened Vga
  import opened History

  datatype Event = Save | Lines(lines: int) | Page(dir: bv8) | Top | Bottom

  /** The number of rows in the history, and the window over it. The position can be beyond the rows: then
      the row win_ptr pointed at has been freed. */
  datatype Win = Win(rows: nat, view: View)

  predicate Dangling(w: Win) {
    w.view.pos >= w.rows
  }

  /** A scroll by lines or pages follows win_ptr, and the source asserts that there is a history. */
  predicate Allowed(w: Win, e: Event) {
    e.Lines? || e.Page? ==> w.rows > 0 && !Dangling(w)
  }

  /** What the windows of the source's own making look like. */
  predicate WinOk(cap: nat, w: Win) {
    && w.rows <= cap && -1 <= w.view.pos && 0 <= w.view.idx <= w.rows
    && w.view.idx <= From(w.view) + 1 && (w.view.pos == -1 ==> w.view.idx == 0)
    && (Dangling(w) ==> w.rows == cap)
  }

  function After(cap: nat, w: Win, e: Event): (w': Win)
    requires 0 < cap && WinOk(cap, w) && Allowed(w, e)
    ensures WinOk(cap, w')
  {
    match e
    case Save =>
      Win(Min(w.rows + 1, cap), if w.view.pos < 0 then w.view else View(w.view.pos + 1, w.view.idx))
    case Lines(lines) => ScrollOk(w.rows, w.view, lines); w.(view := Scroll(w.rows, w.view, lines))
    case Page(dir) => ScrollOk(w.rows, w.view, PageLines(dir)); w.(view := Scroll(w.rows, w.view, PageLines(dir)))
    case Top => if w.rows == 0 then w else w.(view := View(w.rows - 1, w.rows))
    case Bottom => w.(view := View(-1, 0))
  }

  lemma ScrollOk(n: nat, v: View, lines: int)
    requires 0 < n && ValidView(n, v) && v.idx <= From(v) + 1
    ensures Scroll(n, v, lines).idx <= From(Scroll(n, v, lines)) + 1
  {
  }

  /** How far win_ptr is ahead of where line_idx says it is; NULL counts as the head. */
  function Drift(w: Win): (d: int) {
    From(w.view) - w.view.idx
  }

  function Towards(e: Event): (lines: int)
    requires e.Lines? || e.Page?
  {
    match e
    case Lines(lines) => lines
    case Page(dir) => PageLines(dir)
  }

  /** Where the drift comes from. A saved row adds one unless win_ptr is NULL; a scroll that runs into the
      oldest row takes one away; one that goes back past the head, to the tail, adds the whole length of
      the list; and no other scroll changes it. */
  lemma DriftStep(cap: nat, w: Win, e: Event)
    requires 0 < cap && WinOk(cap, w) && Allowed(w, e)
    ensures var d, d', n, p := Drift(w), Drift(After(cap, w, e)), w.rows, From(w.view);
            match e
            case Save => d' == if w.view.pos < 0 then d else d + 1
            case Top => d' == if n == 0 then d else -1
            case Bottom => d' == 0
            case _ =>
              var lines := Towards(e);
              if lines >= 0 then d' == d - if lines > 0 && Min(lines, n - w.view.idx) >= n - p then 1 else 0
              else d' == d + if Min(-lines, w.view.idx) > p then n else 0
  {
  }

  // ---- sessions ----------------------------------------------------------------------------------

  /** Every event is allowed when its turn comes. */
  predicate AllAllowed(cap: nat, es: seq<Event>)
    requires 0 < cap
    decreases |es|, 0
  {
    es == [] || (AllAllowed(cap, es[..|es| - 1]) && Allowed(Session(cap, es[..|es| - 1]), es[|es| - 1]))
  }

  /** The window after a session, from an empty history. It is never more than one line ahead of win_ptr. */
  function Session(cap: nat, es: seq<Event>): (w: Win)
    requires 0 < cap && AllAllowed(cap, es)
    ensures WinOk(cap, w)
    decreases |es|, 1
  {
    if es == [] then Win(0, View(-1, 0)) else After(cap, Session(cap, es[..|es| - 1]), es[|es| - 1])
  }

  lemma {:induction false} AllowedPrefix(cap: nat, es: seq<Event>, i: nat)
    requires 0 < cap && AllAllowed(cap, es) && i <= |es|
    ensures AllAllowed(cap, es[..i])
    decreases |es| - i
  {
    if i < |es| {
      AllowedPrefix(cap, es, i + 1);
      assert es[..i + 1][..i] == es[..i];
    } else {
      assert es[..i] == es;
    }
  }

  function Saves(es: seq<Event>): (n: nat) {
    if es == [] then 0 else Saves(es[..|es| - 1]) + if es[|es| - 1] == Save then 1 else 0
  }

  /** The rows saved since the last scroll. */
  function SavesSince(es: seq<Event>): (n: nat)
    ensures n <= |es|
  {
    if es != [] && es[|es| - 1] == Save then SavesSince(es[..|es| - 1]) + 1 else 0
  }

  lemma {:induction false} RowsOfSession(cap: nat, es: seq<Event>)
    requires 0 < cap && AllAllowed(cap, es)
    ensures Session(cap, es).rows == Min(Saves(es), cap)
  {
    if es != [] {
      RowsOfSession(cap, es[..|es| - 1]);
    }
  }

  /** Where the last scroll left the window, and how the rows saved since then have moved it. */
  lemma {:induction false} SinceLastScroll(cap: nat, es: seq<Event>)
    returns (k: nat, v: View)
    requires 0 < cap && AllAllowed(cap, es)
    ensures k == |es| - SavesSince(es) && AllAllowed(cap, es[..k])
    ensures v == Session(cap, es[..k]).view && !Dangling(Session(cap, es[..k]))
    ensures Session(cap, es).view == if v.pos < 0 then v else View(v.pos + SavesSince(es), v.idx)
  {
    if es != [] && es[|es| - 1] == Save {
      var n := |es| - 1;
      k, v := SinceLastScroll(cap, es[..n]);
      assert es[..n][..k] == es[..k];
    } else {
      k, v := |es|, Session(cap, es).view;
      assert es[..k] == es;
    }
  }

  /** A session leaves win_ptr dangling exactly when so many rows were saved since its last scroll that the
      row it was left on is no longer among the newest cap. */
  lemma DanglesIff(cap: nat, es: seq<Event>) returns (k: nat, v: View)
    requires 0 < cap && AllAllowed(cap, es)
    ensures k == |es| - SavesSince(es) && AllAllowed(cap, es[..k]) && v == Session(cap, es[..k]).view
    ensures Dangling(Session(cap, es)) <==> v.pos >= 0 && v.pos + SavesSince(es) >= cap
  {
    k, v := SinceLastScroll(cap, es);
    RowsOfSession(cap, es);
    var w := Session(cap, es);
    if v.pos >= 0 && v.pos + SavesSince(es) < cap {
      assert !Dangling(w) || w.rows == cap;
    }
  }

  lemma {:induction false} Filling(cap: nat, n: nat) returns (es: seq<Event>)
    requires 0 < cap && n <= cap
    ensures AllAllowed(cap, es) && Session(cap, es) == Win(n, View(-1, 0))
  {
    es := [];
    if n > 0 {
      var front := Filling(cap, n - 1);
      es := front + [Save];
      assert es[..|es| - 1] == front;
    }
  }

  /** And there is such a session: fill the history, scroll to its top, save one more row. */
  lemma SomeSessionDangles(cap: nat) returns (es: seq<Event>)
    requires 0 < cap
    ensures AllAllowed(cap, es) && Dangling(Session(cap, es))
  {
    var full := Filling(cap, cap);
    assert (full + [Top])[..|full|] == full;
    es := full + [Top] + [Save];
    assert es[..|es| - 1] == full + [Top];
  }
}
