/**
 * `TimeStatusBar`, the status bar that prefixes every message with the
 * time of day and keeps the last `HISTORY_SIZE` messages as its tooltip.
 *
 * The clock is a parameter: `showMessage` is handed the local time at
 * which it runs. The message format and the bounded history are functions
 * here, and the widgets of the two copies below are classes over them.
 */
module TimeStatusBar {
  import opened PyStrings

  /** `HISTORY_SIZE`, the `maxlen` of the history deque. */
  const HistorySize: nat := 10

  /** A local time of day as `datetime` holds it, down to the microsecond. */
  datatype Clock = Clock(hour: int, minute: int, second: int, microsecond: int)

  /** The ranges `datetime` keeps its fields in. */
  predicate ValidClock(t: Clock)
  {
    && 0 <= t.hour < 24 && 0 <= t.minute < 60 && 0 <= t.second < 60
    && 0 <= t.microsecond < 1000000
  }

  function Pow10(k: nat): (r: nat)
    ensures r >= 1
  {
    if k == 0 then 1 else 10 * Pow10(k - 1)
  }

  /** The decimal digit `d` as a character. */
  function DigitChar(d: int): (c: char)
    requires 0 <= d < 10
    ensures '0' <= c <= '9'
  {
    (48 + d) as char
  }

  /** The value of a decimal digit character. */
  function DigitValue(c: char): int
  {
    c as int - 48
  }

  /** The last `width` decimal digits of `n`, zero-padded: the `%02d`-style fields of `strftime`. */
  function Digits(n: nat, width: nat): (r: string)
    ensures |r| == width
    ensures forall i :: 0 <= i < |r| ==> '0' <= r[i] <= '9'
  {
    if width == 0 then "" else Digits(n / 10, width - 1) + [DigitChar(n % 10)]
  }

  /** The number a string of decimal digits spells. */
  function DecimalValue(s: string): int
  {
    if s == [] then 0 else 10 * DecimalValue(s[..|s| - 1]) + DigitValue(s[|s| - 1])
  }

  /** `n` with its last `k` decimal digits dropped: `n // 10` taken `k` times. */
  function DropDigits(n: nat, k: nat): nat
  {
    if k == 0 then n else DropDigits(n / 10, k - 1)
  }

  /** Dropping the last `k` of `width` digits of `n` gives the digits of `n` with `k` digits dropped. */
  lemma {:induction false} DigitsPrefix(n: nat, width: nat, k: nat)
    requires k <= width
    ensures Digits(n, width)[..width - k] == Digits(DropDigits(n, k), width - k)
  {
    if k > 0 {
      var rest := Digits(n / 10, width - 1);
      assert Digits(n, width)[..width - k] == rest[..(width - 1) - (k - 1)];
      DigitsPrefix(n / 10, width - 1, k - 1);
    }
  }

  /** A number with fewer than `width` digits reads back from its zero-padded digits. */
  lemma {:induction false} DigitsValue(n: nat, width: nat)
    requires n < Pow10(width)
    ensures DecimalValue(Digits(n, width)) == n
  {
    if width > 0 {
      var s := Digits(n, width);
      assert s[..width - 1] == Digits(n / 10, width - 1);
      DigitsValue(n / 10, width - 1);
    }
  }

  /** `t.strftime("%H:%M:%S.%f")` */
  function Strftime(t: Clock): (r: string)
    requires ValidClock(t)
    ensures |r| == 15
  {
    Digits(t.hour, 2) + ":" + Digits(t.minute, 2) + ":" + Digits(t.second, 2) + "." + Digits(t.microsecond, 6)
  }

  /** The slice `s[:-n]`: all but the last `n` characters, or nothing when `s` is shorter. */
  function DropLast(s: string, n: nat): (r: string)
    ensures |s| >= n ==> r == s[..|s| - n]
    ensures |s| < n ==> r == ""
  {
    if |s| >= n then s[..|s| - n] else ""
  }

  /** The time stamp of a message: `strftime("%H:%M:%S.%f")[:-4]`. */
  function Stamp(t: Clock): string
    requires ValidClock(t)
  {
    DropLast(Strftime(t), 4)
  }

  /** The stamp is the time to the hundredth of a second: `HH:MM:SS.hh`, eleven characters. */
  lemma StampShape(t: Clock)
    requires ValidClock(t)
    ensures Stamp(t) == Digits(t.hour, 2) + ":" + Digits(t.minute, 2) + ":" + Digits(t.second, 2) + "." + Digits(t.microsecond / 10000, 2)
    ensures |Stamp(t)| == 11
  {
    var head := Digits(t.hour, 2) + ":" + Digits(t.minute, 2) + ":" + Digits(t.second, 2) + ".";
    var f := Digits(t.microsecond, 6);
    assert Strftime(t) == head + f;
    assert (head + f)[..11] == head + f[..2];
    DigitsPrefix(t.microsecond, 6, 4);
    var u := t.microsecond;
    assert u / 10 / 10 == u / 100;
    assert u / 100 / 10 == u / 1000;
    assert u / 1000 / 10 == u / 10000;
    assert DropDigits(u, 4) == DropDigits(u / 10, 3) == DropDigits(u / 100, 2);
    assert DropDigits(u / 100, 2) == DropDigits(u / 1000, 1) == DropDigits(u / 10000, 0);
  }

  /** Each field of the stamp reads back as the clock's hours, minutes, seconds and hundredths. */
  lemma StampFields(t: Clock)
    requires ValidClock(t)
    ensures DecimalValue(Stamp(t)[0..2]) == t.hour
    ensures DecimalValue(Stamp(t)[3..5]) == t.minute
    ensures DecimalValue(Stamp(t)[6..8]) == t.second
    ensures DecimalValue(Stamp(t)[9..11]) == t.microsecond / 10000
    ensures Stamp(t)[2] == ':' && Stamp(t)[5] == ':' && Stamp(t)[8] == '.'
  {
    StampShape(t);
    var s := Stamp(t);
    assert s[0..2] == Digits(t.hour, 2);
    assert s[3..5] == Digits(t.minute, 2);
    assert s[6..8] == Digits(t.second, 2);
    assert s[9..11] == Digits(t.microsecond / 10000, 2);
    assert Pow10(2) == 100;
    DigitsValue(t.hour, 2);
    DigitsValue(t.minute, 2);
    DigitsValue(t.second, 2);
    DigitsValue(t.microsecond / 10000, 2);
  }

  /** `f'{stamp} :  {message}'`: the text that is both stored and shown. */
  function FormatMessage(t: Clock, message: string): string
    requires ValidClock(t)
  {
    Stamp(t) + " :  " + message
  }

  /** The formatted text is the stamp, the four-character separator and then the message itself. */
  lemma FormatMessageParts(t: Clock, message: string)
    requires ValidClock(t)
    ensures |FormatMessage(t, message)| == 15 + |message|
    ensures FormatMessage(t, message)[..11] == Stamp(t)
    ensures FormatMessage(t, message)[11..15] == " :  "
    ensures FormatMessage(t, message)[15..] == message
  {
    StampShape(t);
  }

  /** `deque.append(msg)` on a deque of `maxlen` `HISTORY_SIZE`: the new text goes last and the oldest falls off a full deque. */
  function Appended(history: seq<string>, msg: string): (r: seq<string>)
  {
    var h := history + [msg];
    if |h| > HistorySize then h[|h| - HistorySize..] else h
  }

  /** The deque never grows past `HISTORY_SIZE`, ends with the new text and keeps the order of the rest. */
  lemma AppendedShape(history: seq<string>, msg: string)
    requires |history| <= HistorySize
    ensures var r := Appended(history, msg);
      && |r| <= HistorySize && r != [] && r[|r| - 1] == msg
      && (|history| < HistorySize ==> r == history + [msg])
      && (|history| == HistorySize ==> r == history[1..] + [msg])
  {
    var h := history + [msg];
    if |history| == HistorySize {
      assert h[|h| - HistorySize..] == history[1..] + [msg];
    }
  }

  /** The history after showing `msgs`, one after the other, starting from `history`. */
  function Replay(history: seq<string>, msgs: seq<string>): seq<string>
    decreases |msgs|
  {
    if msgs == [] then history else Replay(Appended(history, msgs[0]), msgs[1..])
  }

  /** The most recent `min(HISTORY_SIZE, |s|)` entries of `s`, oldest first. */
  function Newest(s: seq<string>): (r: seq<string>)
    ensures |r| == if |s| > HistorySize then HistorySize else |s|
    ensures r == s[|s| - |r|..]
  {
    if |s| > HistorySize then s[|s| - HistorySize..] else s
  }

  /** Appending to the newest entries of a sequence keeps the newest entries of the longer sequence. */
  lemma AppendedNewest(s: seq<string>, msg: string)
    ensures Appended(Newest(s), msg) == Newest(s + [msg])
  {
    var n := Newest(s);
    if |s| > HistorySize {
      var h := n + [msg];
      assert h[|h| - HistorySize..] == (s + [msg])[|s + [msg]| - HistorySize..];
    }
  }

  /**
   * A history that starts empty holds, after any number of messages, the
   * last `HISTORY_SIZE` of them (all of them while there are fewer), in
   * the order they were shown.
   */
  lemma {:induction false} ReplayNewest(shown: seq<string>, msgs: seq<string>)
    ensures Replay(Newest(shown), msgs) == Newest(shown + msgs)
    decreases |msgs|
  {
    if msgs != [] {
      var longer := shown + [msgs[0]];
      assert Replay(Newest(shown), msgs) == Replay(Appended(Newest(shown), msgs[0]), msgs[1..]);
      AppendedNewest(shown, msgs[0]);
      ReplayNewest(longer, msgs[1..]);
      assert longer + msgs[1..] == shown + msgs;
    } else {
      assert shown + msgs == shown;
    }
  }

  /** From an empty history: the history after `msgs` is the newest of them. */
  lemma ReplayFromEmpty(msgs: seq<string>)
    ensures Replay([], msgs) == Newest(msgs)
  {
    assert Newest([]) == [];
    ReplayNewest([], msgs);
    assert [] + msgs == msgs;
  }

  /** `'\n'.join(history)`, the tooltip. */
  function ToolTip(history: seq<string>): string
  {
    Join(history, "\n")
  }

  /** Messages with no line break in them can be read back from the tooltip, line by line. */
  lemma ToolTipLines(history: seq<string>)
    requires history != [] && forall k :: 0 <= k < |history| ==> '\n' !in history[k]
    ensures Split(ToolTip(history), '\n') == history
  {
    JoinSplit(history, '\n');
  }

  /**
   * The newer widget: the history deque, the tooltip it sets and what the
   * underlying `QStatusBar.showMessage` was last given.
   */
  class TimeStatusBar {
    var history: seq<string>
    var toolTip: string
    var currentMessage: string
    var currentTimeout: int

    /** The deque is within its `maxlen`; once a message is shown the tooltip is the joined history. */
    ghost predicate Valid()
      reads this
    {
      |history| <= HistorySize && (history != [] ==> toolTip == ToolTip(history))
    }

    /** `TimeStatusBar(parent)`: an empty history. */
    constructor ()
      ensures Valid() && history == [] && toolTip == "" && currentMessage == ""
    {
      history := [];
      toolTip := "";
      currentMessage := "";
      currentTimeout := 0;
    }

    /**
     * `showMessage(message, timeout)` at local time `now`: the formatted
     * text is appended to the history, the tooltip becomes the joined
     * history and the same text is shown for `timeout` milliseconds.
     */
    method ShowMessage(message: string, timeout: int, now: Clock)
      requires Valid() && ValidClock(now)
      modifies this
      ensures Valid()
      ensures history == Appended(old(history), FormatMessage(now, message))
      ensures toolTip == ToolTip(history)
      ensures currentMessage == FormatMessage(now, message) && currentTimeout == timeout
    {
      var msg := Stamp(now) + " :  " + message;
      history := history + [msg];
      if |history| > HistorySize {
        history := history[1..];
      }
      AppendedShape(old(history), msg);
      toolTip := Join(history, "\n");
      currentMessage := msg;
      currentTimeout := timeout;
    }
  }
}

/** The older widget: the same history, tooltip and message format over the local clock. */
module TimeStatusBarLib {
  import TSB = TimeStatusBar
  import opened PyStrings

  class TimeStatusBar {
    var history: seq<string>
    var toolTip: string
    var currentMessage: string
    var currentTimeout: int

    ghost predicate Valid()
      reads this
    {
      |history| <= TSB.HistorySize && (history != [] ==> toolTip == TSB.ToolTip(history))
    }

    /** `TimeStatusBar(parent)`: an empty history. */
    constructor ()
      ensures Valid() && history == [] && toolTip == "" && currentMessage == ""
    {
      history := [];
      toolTip := "";
      currentMessage := "";
      currentTimeout := 0;
    }

    /** `showMessage(message, timeout)` at local time `now`. */
    method ShowMessage(message: string, timeout: int, now: TSB.Clock)
      requires Valid() && TSB.ValidClock(now)
      modifies this
      ensures Valid()
      ensures history == TSB.Appended(old(history), TSB.FormatMessage(now, message))
      ensures toolTip == TSB.ToolTip(history)
      ensures currentMessage == TSB.FormatMessage(now, message) && currentTimeout == timeout
    {
      var msg := TSB.Stamp(now) + " :  " + message;
      history := history + [msg];
      if |history| > TSB.HistorySize {
        history := history[1..];
      }
      TSB.AppendedShape(old(history), msg);
      toolTip := Join(history, "\n");
      currentMessage := msg;
      currentTimeout := timeout;
    }
  }
}
