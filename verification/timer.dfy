/**
 * The game timer's display: `getFormattedTime` renders the elapsed seconds as
 * minutes and seconds, each field zero-padded to two digits, and the interval
 * tick started by `startTimer` renders the same text after each increment.
 */
module TimerDisplay {
  import opened Config
  import opened Strings

  /** One field of the display: a '0' is prepended exactly when n is below 10. */
  function Field(n: nat): (s: string)
    ensures AllDigits(s) && |s| >= 2
    ensures |s| == 2 <==> n < 100
    ensures s[0] == '0' <==> n < 10
  {
    NatToStringLength(n, 1);
    NatToStringLength(n, 2);
    (if n < 10 then "0" else "") + NatToString(n)
  }

  /** The text shown for an elapsed time of `seconds`: minutes, a ':' and a
      two-digit seconds field. */
  function FormatTime(seconds: nat): (t: string)
    ensures |t| >= 5 && t[|t| - 3] == ':' && AllDigits(t[..|t| - 3]) && AllDigits(t[|t| - 2..])
  {
    var mins := seconds / 60;
    var secs := seconds % 60;
    Field(mins) + ":" + Field(secs)
  }

  /** Reads a display text back: minutes before the first ':' and seconds after it. */
  function ReadTime(s: string): Option<nat>
  {
    var i := IndexOf(s, ':');
    if i == |s| || !AllDigits(s[..i]) || !AllDigits(s[i + 1..]) then None
    else Some(Value(s[..i]) * 60 + Value(s[i + 1..]))
  }

  /** A field reads back as the number it shows. */
  lemma FieldValue(n: nat)
    ensures Value(Field(n)) == n
  {
    ValueOfNatToString(n);
    if n < 10 {
      assert Field(n) == ['0'] + NatToString(n);
      LeadingZero(NatToString(n));
    } else {
      assert Field(n) == NatToString(n);
    }
  }

  /** The display loses nothing: reading it back gives the elapsed seconds. */
  lemma FormatTimeRoundTrip(seconds: nat)
    ensures ReadTime(FormatTime(seconds)) == Some(seconds)
  {
    var m := Field(seconds / 60);
    var s := Field(seconds % 60);
    var t := FormatTime(seconds);
    assert t == m + ":" + s;
    assert IndexOf(t, ':') == |m| by {
      assert t[|m|] == ':';
      forall j | 0 <= j < |m| ensures t[j] != ':' {
        assert t[j] == m[j];
      }
    }
    assert t[..|m|] == m;
    assert t[|m| + 1..] == s;
    FieldValue(seconds / 60);
    FieldValue(seconds % 60);
  }

  /** The seconds field is always the last two characters, after a ':'. Below
      100 minutes the text is exactly five characters with ':' at index 2;
      the minutes are not capped, so longer times give longer texts. */
  lemma FormatTimeShape(seconds: nat)
    ensures var t := FormatTime(seconds);
      |t| >= 5 && t[|t| - 3] == ':' && (|t| == 5 <==> seconds < 6000) && (seconds < 6000 ==> t[2] == ':')
  {
  }

  /** The timer part of the UI controller: the elapsed seconds, the selected
      difficulty and the text of the timer element. */
  class UIController {
    var seconds: nat
    var difficulty: Difficulty
    var display: string

    /** The display shows the elapsed seconds. */
    ghost predicate Valid()
      reads this
    {
      display == FormatTime(seconds)
    }

    /** The constructor sets the count to 0 and the difficulty to normal; it does
        not touch the timer element, whose text `shown` comes from the page. */
    constructor(shown: string)
      ensures seconds == 0 && difficulty == Normal && display == shown
    {
      seconds := 0;
      difficulty := Normal;
      display := shown;
    }

    /** getFormattedTime. */
    function GetFormattedTime(): (s: string)
      reads this
      ensures ReadTime(s) == Some(seconds)
    {
      FormatTimeRoundTrip(seconds);
      FormatTime(seconds)
    }

    /** The synchronous part of startTimer: the count is reset and "00:00" shown,
        which is the formatted text of zero seconds. */
    method StartTimer()
      modifies this
      ensures seconds == 0 && display == "00:00" && Valid()
      ensures difficulty == old(difficulty)
    {
      seconds := 0;
      display := "00:00";
    }

    /** One interval tick: the count goes up by one and the display is redrawn
        with the formula of getFormattedTime. */
    method Tick()
      modifies this
      ensures seconds == old(seconds) + 1 && Valid() && display == GetFormattedTime()
      ensures difficulty == old(difficulty)
    {
      seconds := seconds + 1;
      var mins := seconds / 60;
      var secs := seconds % 60;
      display := (if mins < 10 then "0" else "") + NatToString(mins) + ":" + (if secs < 10 then "0" else "") + NatToString(secs);
    }
  }
}
