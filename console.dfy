/**
 * The log console: a fixed number of slots used as a circular buffer of log
 * lines, with a window (top position, height, number of lines) that follows
 * the newest line when it is at the bottom.
 */
module ConsoleLog {
  import opened Wrappers

  /** A log line: its timestamp text and its message text. */
  datatype LogLine = LogLine(ts: string, str: string)

  /** What the window scroll routine leaves behind: the new top position and its redraw count. */
  datatype ScrollOutcome = ScrollOutcome(position: int, changed: int)

  /**
   * The window scroll routine, whose body is not part of this model: given
   * the window's position, height and number of lines and a scroll delta it
   * yields the new position and the number of rows to redraw.
   */
  type WindowScroll = (int, int, int, int) -> ScrollOutcome

  /** Rows of the console window to redraw, from `start` to `end` inclusive. */
  datatype DrawRange = DrawRange(start: int, end: int)

  /** How many rows a range covers. */
  function RowCount(r: DrawRange): nat
  {
    if r.end < r.start then 0 else r.end - r.start + 1
  }

  /**
   * The rows redrawn after a scroll that reported `changed`: a positive
   * count redraws the bottom rows, a negative count the top rows, and zero
   * the single row numbered `numLines - 1`.
   */
  function RedrawRange(changed: int, height: int, numLines: int): (r: DrawRange)
    ensures changed > 0 ==> r.end == height && RowCount(r) == changed + 1
    ensures changed < 0 ==> r.start == 0 && RowCount(r) == -changed
    ensures changed == 0 ==> r.start == r.end == numLines - 1 && RowCount(r) == 1
  {
    if changed > 0 then DrawRange(height - changed, height)
    else if changed < 0 then DrawRange(0, -changed - 1)
    else DrawRange(numLines - 1, numLines - 1)
  }

  /**
   * Whether an append scrolls the window: the log is shorter than the window,
   * or the window's last row is at or next to the newest line.
   */
  predicate FollowsBottom(numLines: int, height: int, position: int)
  {
    numLines < height || position + height + 1 >= numLines
  }

  /** Wrapping once around a ring of `limit` slots is the remainder modulo `limit`. */
  lemma WrapOnce(a: int, limit: int)
    requires 0 <= a < 2 * limit
    ensures a % limit == if a < limit then a else a - limit
  {
    if a >= limit {
      assert a - limit == a % limit by {
        assert a == limit * 1 + (a - limit);
      }
    }
  }

  /** The slot that holds the line `k` places after the one in slot `first`, in a ring of `limit` slots. */
  function SlotOf(first: nat, k: nat, limit: nat): nat
  {
    if first + k < limit then first + k else first + k - limit
  }

  /** The slot after `i` in a ring of `limit` slots. */
  function Next(i: nat, limit: nat): nat
  {
    if i + 1 >= limit then 0 else i + 1
  }

  /**
   * The ring invariant over the slots' values: `cursor` is the next slot to
   * write and `first` the oldest line's slot; until the ring is full the
   * lines fill the slots from 0 up to the cursor, and `log` holds them
   * oldest first.
   */
  ghost predicate Ring(slots: seq<Option<LogLine>>, cursor: nat, first: nat, full: bool, log: seq<LogLine>)
  {
    var limit := |slots|;
    && (limit == 0 ==> cursor == 0 && first == 0 && !full)
    && (limit > 0 ==> cursor < limit && first < limit)
    && |log| <= limit
    && (full ==> first == cursor && |log| == limit)
    && (!full ==> first == 0 && |log| == cursor)
    && (forall i :: 0 <= i < limit ==> (slots[i].Some? <==> full || i < cursor))
    && (forall k :: 0 <= k < |log| ==> SlotOf(first, k, limit) < limit && slots[SlotOf(first, k, limit)] == Some(log[k]))
  }

  /**
   * Storing a line at the cursor and advancing the cursor (and, once full,
   * the oldest slot) keeps the ring invariant, with the oldest line evicted
   * when the ring was full.
   */
  lemma {:induction false} AppendKeepsRing(slots: seq<Option<LogLine>>, cursor: nat, first: nat, full: bool, log: seq<LogLine>, line: LogLine)
    requires Ring(slots, cursor, first, full, log) && |slots| > 0
    ensures Ring(slots[cursor := Some(line)], Next(cursor, |slots|), if full then Next(first, |slots|) else first,
                 full || cursor + 1 == |slots|, (if full then log[1..] else log) + [line])
  {
    var limit := |slots|;
    var slots' := slots[cursor := Some(line)];
    var first' := if full then Next(first, limit) else first;
    var log' := (if full then log[1..] else log) + [line];
    if !full {
      forall k | 0 <= k < |log'|
        ensures SlotOf(first', k, limit) < limit && slots'[SlotOf(first', k, limit)] == Some(log'[k])
      {
        assert SlotOf(first', k, limit) == k;
        if k < |log| {
          assert log'[k] == log[k];
          assert SlotOf(first, k, limit) == k;
        }
      }
    } else {
      forall k | 0 <= k < |log'|
        ensures SlotOf(first', k, limit) < limit && slots'[SlotOf(first', k, limit)] == Some(log'[k])
      {
        if k < limit - 1 {
          assert SlotOf(first', k, limit) == SlotOf(first, k + 1, limit);
          assert SlotOf(first, k + 1, limit) != cursor;
          assert log'[k] == log[k + 1];
        } else {
          assert SlotOf(first', k, limit) == cursor;
        }
      }
    }
  }

  class Console {
    /** The slots; None stands for an empty (NULL) slot. */
    var lines: array<Option<LogLine>>
    /** The slot the next line goes to. */
    var lineCursor: nat
    /** The number of slots. */
    var lineLimit: nat
    /** The slot of the oldest line. */
    var firstLine: nat
    /** Whether every slot has been written at least once. */
    var full: bool
    /** The console window's number of lines. */
    var numLines: int
    /** The console window's scroll position (its top line). */
    var position: int
    /** The console window's height in rows. */
    var height: int

    /** The lines held, oldest first. */
    ghost var Log: seq<LogLine>

    /** The ring's invariant. */
    ghost predicate Valid()
      reads this, lines
    {
      && lines.Length == lineLimit
      && numLines == |Log|
      && Ring(lines[..], lineCursor, firstLine, full, Log)
    }

    /** Set up `maxLines` empty slots and an empty window of `height` rows. */
    constructor Init(maxLines: nat, height: int)
      ensures Valid() && fresh(lines)
      ensures lineLimit == maxLines && forall i :: 0 <= i < lines.Length ==> lines[i] == None
      ensures lineCursor == 0 && firstLine == 0 && !full
      ensures numLines == 0 && position == 0 && this.height == height && Log == []
    {
      lines := new Option<LogLine>[maxLines](_ => None);
      lineCursor := 0;
      lineLimit := maxLines;
      firstLine := 0;
      full := false;
      numLines := 0;
      position := 0;
      this.height := height;
      Log := [];
    }

    /** The slot holding logical line `n`, counted from the oldest. */
    function GetLine(n: nat): (r: Option<LogLine>)
      reads this, lines
      requires Valid() && lineLimit > 0
      ensures n < numLines ==> r == Some(Log[n])
      ensures n >= numLines && n < lineLimit ==> r == None
    {
      var slot := (n + firstLine) % lineLimit;
      assert n < lineLimit ==> slot == SlotOf(firstLine, n, lineLimit) by {
        if n < lineLimit {
          WrapOnce(n + firstLine, lineLimit);
        }
      }
      lines[slot]
    }

    /**
     * Scroll the window by `delta` with the window scroll routine and
     * report the rows to redraw.
     */
    method Scroll(delta: int, scroll: WindowScroll) returns (changed: int, rows: DrawRange)
      modifies this`position
      ensures position == scroll(old(position), height, numLines, delta).position
      ensures changed == scroll(old(position), height, numLines, delta).changed
      ensures rows == RedrawRange(changed, height, numLines)
    {
      var outcome := scroll(position, height, numLines, delta);
      position := outcome.position;
      changed := outcome.changed;
      rows := RedrawRange(changed, height, numLines);
    }

    /**
     * Append a line: it takes the slot at the cursor, evicting the oldest
     * line once every slot is in use, and the window scrolls by one line
     * when it follows the bottom. `followed` tells whether it scrolled.
     */
    method Append(line: LogLine, scroll: WindowScroll) returns (followed: bool)
      requires Valid() && lineLimit > 0
      modifies this, lines
      ensures Valid() && lines == old(lines) && lineLimit == old(lineLimit) && height == old(height)
      ensures Log == (if old(full) then old(Log)[1..] else old(Log)) + [line]
      ensures lines[old(lineCursor)] == Some(line)
      ensures forall i :: 0 <= i < lineLimit && i != old(lineCursor) ==> lines[i] == old(lines[i])
      ensures lineCursor == if old(lineCursor) + 1 == lineLimit then 0 else old(lineCursor) + 1
      ensures full == (old(full) || old(lineCursor) + 1 == lineLimit)
      ensures firstLine == if !old(full) then old(firstLine)
                           else if old(firstLine) + 1 == lineLimit then 0 else old(firstLine) + 1
      ensures numLines == if old(full) then old(numLines) else old(numLines) + 1
      ensures followed == FollowsBottom(numLines, height, old(position))
      ensures position == if followed then scroll(old(position), height, numLines, 1).position else old(position)
    {
      // The slot at the cursor is released and reused: once the ring is
      // full it holds the oldest line.
      AppendKeepsRing(lines[..], lineCursor, firstLine, full, Log, line);
      ghost var slots := lines[..][lineCursor := Some(line)];
      Log := if full then Log[1..] + [line] else Log + [line];
      if full {
        firstLine := firstLine + 1;
        if firstLine >= lineLimit {
          firstLine := 0;
        }
      } else {
        numLines := numLines + 1;
      }
      lines[lineCursor] := Some(line);
      assert lines[..] == slots;
      lineCursor := lineCursor + 1;
      if lineCursor >= lineLimit {
        lineCursor := 0;
        full := true;
      }
      followed := FollowsBottom(numLines, height, position);
      if followed {
        var _, _ := Scroll(1, scroll);
      }
    }
  }
}
