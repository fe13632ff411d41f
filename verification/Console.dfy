/** The scrolling text screen of kernel/ktty.c: video memory as a window on an unbounded history of lines. */
module Console {
  import opened BlockStack

  const HEIGHT: nat := 25
  const WIDTH: nat := 80
  const SCREEN: nat := 2000
  const NEWLINE: Byte := 10

  /** The lines printed since the screen was cleared, two bytes a character, and the unfinished one. */
  datatype History = History(lines: seq<seq<Byte>>, cur: seq<Byte>)

  function Zeros(n: nat): (z: seq<Byte>)
    ensures |z| == n && forall i | 0 <= i < n :: z[i] == 0
  {
    seq<Byte>(n, _ => 0)
  }

  /** A line filled up with blanks. */
  function Padded(line: seq<Byte>): seq<Byte>
    requires |line| <= 2 * WIDTH
  {
    line + Zeros(2 * WIDTH - |line|)
  }

  ghost predicate Proper(h: History) {
    && |h.cur| < 2 * WIDTH && |h.cur| % 2 == 0
    && (forall i | 0 <= i < |h.lines| :: |h.lines[i]| == 2 * WIDTH)
  }

  /** Line `i` of the history; lines not yet reached are blank. */
  ghost function Row(h: History, i: nat): (r: seq<Byte>)
    requires |h.cur| <= 2 * WIDTH
  {
    if i < |h.lines| then h.lines[i] else if i == |h.lines| then Padded(h.cur) else Zeros(2 * WIDTH)
  }

  /** The history after one more character: a line ends with a newline or when it is full. */
  function After(h: History, c: Byte, attribute: Byte): (h': History)
    requires |h.cur| < 2 * WIDTH && |h.cur| % 2 == 0
    ensures |h'.cur| < 2 * WIDTH && |h'.cur| % 2 == 0
  {
    if c == NEWLINE then History(h.lines + [Padded(h.cur)], [])
    else if |h.cur| + 2 == 2 * WIDTH then History(h.lines + [h.cur + [c, attribute]], [])
    else History(h.lines, h.cur + [c, attribute])
  }

  function AfterAll(h: History, s: seq<Byte>, attribute: Byte): (h': History)
    requires |h.cur| < 2 * WIDTH && |h.cur| % 2 == 0
    ensures |h'.cur| < 2 * WIDTH && |h'.cur| % 2 == 0
  {
    if s == [] then h else After(AfterAll(h, s[..|s| - 1], attribute), s[|s| - 1], attribute)
  }

  /** The first line on the screen: the last 25 lines, counting the unfinished one, are shown. */
  function Top(h: History): nat {
    if |h.lines| < HEIGHT then 0 else |h.lines| - (HEIGHT - 1)
  }

  /** The screen shows the lines from `top` on. */
  ghost predicate Shows(video: seq<Byte>, h: History, top: nat) {
    |video| == 2 * SCREEN && |h.cur| <= 2 * WIDTH && forall r | 0 <= r < HEIGHT :: ShowsRow(video, h, top, r)
  }

  ghost predicate ShowsRow(video: seq<Byte>, h: History, top: nat, r: nat)
    requires |video| == 2 * SCREEN && |h.cur| <= 2 * WIDTH && r < HEIGHT
  {
    video[160 * r..160 * r + 160] == Row(h, top + r)
  }

  /** Moving the picture up by a line shows the history from the next line on. */
  lemma ShiftShows(video: seq<Byte>, h: History, top: nat)
    requires Shows(video, h, top) && Row(h, top + HEIGHT) == Zeros(2 * WIDTH)
    ensures Shows(video[160..] + Zeros(160), h, top + 1)
  {
    var video', top' := video[160..] + Zeros(160), top + 1;
    forall r | 0 <= r < HEIGHT
      ensures ShowsRow(video', h, top', r)
    {
      if r + 1 < HEIGHT {
        assert ShowsRow(video, h, top, r + 1);
        assert video'[160 * r..160 * r + 160] == video[160 * (r + 1)..160 * (r + 1) + 160];
      }
    }
  }

  /** Writing a character at the end of the unfinished line. */
  lemma WriteShows(video: seq<Byte>, h: History, top: nat, c: Byte, attribute: Byte, at: nat)
    requires Shows(video, h, top) && |h.cur| + 2 <= 2 * WIDTH && top <= |h.lines| < top + HEIGHT
    requires at == 160 * (|h.lines| - top) + |h.cur|
    ensures Shows(video[at := c][at + 1 := attribute], History(h.lines, h.cur + [c, attribute]), top)
  {
    var video', h' := video[at := c][at + 1 := attribute], History(h.lines, h.cur + [c, attribute]);
    forall r | 0 <= r < HEIGHT
      ensures ShowsRow(video', h', top, r)
    {
      assert ShowsRow(video, h, top, r);
      var was, now := video[160 * r..160 * r + 160], video'[160 * r..160 * r + 160];
      if r == |h.lines| - top {
        assert now == was[|h.cur| := c][|h.cur| + 1 := attribute];
        assert Padded(h.cur)[|h.cur| := c][|h.cur| + 1 := attribute] == Padded(h'.cur);
      } else {
        assert now == was;
      }
    }
  }

  /** Ending the line changes no row. */
  lemma EndLineShows(video: seq<Byte>, h: History, top: nat)
    requires Shows(video, h, top)
    ensures Shows(video, History(h.lines + [Padded(h.cur)], []), top)
  {
    var h' := History(h.lines + [Padded(h.cur)], []);
    forall r | 0 <= r < HEIGHT
      ensures ShowsRow(video, h', top, r)
    {
      assert ShowsRow(video, h, top, r);
      assert Padded([]) == Zeros(160);
    }
  }

  lemma RowEnd(pos: nat)
    ensures pos + 80 - (pos + 80) % 80 == (pos / 80 + 1) * 80
  {
  }

  lemma NextLine(pos: nat, row: nat, used: nat)
    requires 2 * pos == 160 * row + used && used < 160
    ensures pos + WIDTH - (pos + WIDTH) % WIDTH == 80 * (row + 1)
  {
  }

  lemma AfterProper(h: History, c: Byte, attribute: Byte)
    requires Proper(h)
    ensures Proper(After(h, c, attribute)) && |h.lines| <= |After(h, c, attribute).lines| <= |h.lines| + 1
    ensures |After(h, c, attribute).lines| == |h.lines| + 1 ==> After(h, c, attribute).cur == []
  {
  }

  /** A character on the screen, before scrolling: a newline moves to the start of the next row; any other character and its
      attribute go to the two bytes of the position. */
  ghost predicate Written(was: seq<Byte>, at: nat, c: Byte, attribute: Byte, now: seq<Byte>, pos: nat) {
    if c == 10 then now == was && pos == (at / 80 + 1) * 80
    else 2 * at + 1 < |was| && now == was[2 * at := c][2 * at + 1 := attribute] && pos == at + 1
  }

  /** The same with scrolling: a position past the 2000th cell moves everything up by a row of 160 bytes, blanks the last row
      and goes back to its start. */
  ghost predicate Printed(was: seq<Byte>, at: nat, c: Byte, attribute: Byte, now: seq<Byte>, pos: nat) {
    exists mid: seq<Byte>, p: nat :: Written(was, at, c, attribute, mid, p) && Scrolled(mid, p, now, pos)
  }

  ghost predicate Scrolled(mid: seq<Byte>, p: nat, now: seq<Byte>, pos: nat) {
    if p < 2000 then now == mid && pos == p
    else |now| == |mid| == 4000 && now[..3840] == mid[160..] && (forall k | 3840 <= k < 4000 :: now[k] == 0) && pos == 1920
  }

  class Screen {
    const video: array<Byte>
    const attribute: Byte
    var pos: nat
    ghost var history: History

    /** The screen shows the end of the history, and the position is where the next character goes. */
    ghost predicate Valid()
      reads this, video
    {
      && video.Length == 2 * SCREEN && Proper(history) && Shows(video[..], history, Top(history))
      && 2 * pos == 160 * (|history.lines| - Top(history)) + |history.cur|
    }

    lemma OnScreen()
      requires Valid()
      ensures pos < SCREEN
    {
    }

    /** `ktty_init` */
    constructor (colour: Byte)
      ensures Valid() && fresh(video) && attribute == colour && history == History([], [])
    {
      video := new Byte[2 * SCREEN](i => 0);
      attribute, pos, history := colour, 0, History([], []);
      new;
      Blank(video[..]);
    }

    /** `ktty_clear` */
    method Clear()
      requires video.Length == 2 * SCREEN
      modifies this, video
      ensures Valid() && history == History([], [])
      ensures pos == 0 && forall k | 0 <= k < 4000 :: video[k] == 0
    {
      for i := 0 to 2 * SCREEN
        invariant forall k | 0 <= k < i :: video[k] == 0
      {
        video[i] := 0;
      }
      pos, history := 0, History([], []);
      Blank(video[..]);
    }

    /** `ktty_shift`: byte by byte, over itself. */
    method Shift()
      requires video.Length == 2 * SCREEN
      modifies this`pos, video
      ensures video[..] == old(video[..])[160..] + Zeros(160) && pos == SCREEN - WIDTH
    {
      var i := 0;
      while i < 2 * (SCREEN - WIDTH)
        invariant 0 <= i <= 2 * (SCREEN - WIDTH)
        invariant forall k | 0 <= k < i :: video[k] == old(video[k + 160])
        invariant forall k | i <= k < 2 * SCREEN :: video[k] == old(video[k])
      {
        video[i] := video[i + 2 * WIDTH];
        i := i + 1;
      }
      while i < 2 * SCREEN
        invariant 2 * (SCREEN - WIDTH) <= i <= 2 * SCREEN
        invariant forall k | 0 <= k < 2 * (SCREEN - WIDTH) :: video[k] == old(video[k + 160])
        invariant forall k | 2 * (SCREEN - WIDTH) <= k < i :: video[k] == 0
      {
        video[i] := 0;
        i := i + 1;
      }
      pos := SCREEN - WIDTH;
    }

    /** The character itself, before any scrolling. */
    method Place(c: Byte)
      requires Valid()
      modifies this`pos, video
      ensures var h := After(history, c, attribute);
              && Shows(video[..], h, Top(history))
              && 2 * pos == 160 * (|h.lines| - Top(history)) + |h.cur|
      ensures Written(old(video[..]), old(pos), c, attribute, video[..], pos)
    {
      ghost var top, at := Top(history), 2 * pos;
      ghost var was: seq<Byte> := video[..];
      if c == NEWLINE {
        EndLineShows(was, history, top);
        NextLine(pos, |history.lines| - top, |history.cur|);
        RowEnd(pos);
        pos := pos + WIDTH;
        pos := pos - pos % WIDTH;
      } else {
        WriteShows(was, history, top, c, attribute, at);
        video[2 * pos] := c;
        video[2 * pos + 1] := attribute;
        assert video[..] == was[at := c][at + 1 := attribute];
        pos := pos + 1;
        if |history.cur| + 2 == 2 * WIDTH {
          EndLineShows(video[..], History(history.lines, history.cur + [c, attribute]), top);
          assert Padded(history.cur + [c, attribute]) == history.cur + [c, attribute];
        }
      }
    }

    /** `ktty_putc`: the history grows by the character, and the screen follows it. */
    method Putc(c: Byte)
      requires Valid()
      modifies this, video
      ensures Valid() && history == After(old(history), c, attribute)
      ensures Printed(old(video[..]), old(pos), c, attribute, video[..], pos)
    {
      ghost var top := Top(history);
      AfterProper(history, c, attribute);
      Place(c);
      ghost var mid, p := video[..], pos;
      history := After(history, c, attribute);
      if pos >= SCREEN {
        assert Row(history, top + HEIGHT) == Zeros(2 * WIDTH);
        ShiftShows(video[..], history, top);
        Shift();
      }
      assert Scrolled(mid, p, video[..], pos);
    }

    /** `ktty_puts` */
    method Puts(s: seq<Byte>)
      requires Valid()
      modifies this, video
      ensures Valid() && history == AfterAll(old(history), s, attribute)
    {
      var i := 0;
      while i < |s|
        invariant 0 <= i <= |s| && Valid() && history == AfterAll(old(history), s[..i], attribute)
      {
        assert s[..i + 1][..i] == s[..i];
        Putc(s[i]);
        i := i + 1;
      }
      assert s[..i] == s;
    }
  }

  lemma Blank(video: seq<Byte>)
    requires |video| == 2 * SCREEN && forall k | 0 <= k < 2 * SCREEN :: video[k] == 0
    ensures Shows(video, History([], []), 0)
  {
    forall r | 0 <= r < HEIGHT
      ensures ShowsRow(video, History([], []), 0, r)
    {
      assert video[160 * r..160 * r + 160] == Zeros(160);
      assert Padded([]) == Zeros(160);
    }
  }
}
