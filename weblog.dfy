/** The log buffer that replaces standard output in main.py: every
    `print` ends up in `write`, and the page shows the buffered lines. */
module WebLog {
  import opened Text

  /** The buffer after `write(message)`: the stripped message is appended
      when it is not blank, and nothing happens otherwise. */
  function Logged(logs: seq<string>, message: string): (r: seq<string>)
    ensures |r| == |logs| + (if AllSpace(message) then 0 else 1)
    ensures r[..|logs|] == logs
    ensures !AllSpace(message) ==> r[|logs|] == Strip(message) && Stripped(r[|logs|])
  {
    StripEmpty(message);
    var s := Strip(message);
    if s != [] then logs + [s] else logs
  }

  /** Every entry is non-empty and has no surrounding whitespace. */
  predicate Clean(logs: seq<string>) {
    forall k | 0 <= k < |logs| :: logs[k] != [] && Stripped(logs[k])
  }

  lemma LoggedClean(logs: seq<string>, message: string)
    requires Clean(logs)
    ensures Clean(Logged(logs, message))
  {
    var r := Logged(logs, message);
    forall k | 0 <= k < |r| ensures r[k] != [] && Stripped(r[k]) {
      if k < |logs| {
        assert r[k] == r[..|logs|][k];
      }
    }
  }

  /** Writing an entry already logged adds the same entry again: stripping
      is idempotent. */
  lemma LoggedTwice(logs: seq<string>, message: string)
    ensures Logged(logs, Strip(message)) == Logged(logs, message)
  {
    StripIdempotent(message);
  }

  /** `print(message)` writes the text and then the line end; the line end
      alone is blank, so one print adds at most one entry. */
  lemma PrintAddsOneLine(logs: seq<string>, message: string)
    ensures Logged(Logged(logs, message), "\n") == Logged(logs, message)
  {
    assert AllSpace("\n") by {
      assert IsSpace('\n');
    }
  }

  class WebLogger {
    var logs: seq<string>

    predicate Valid()
      reads this
    {
      Clean(logs)
    }

    constructor ()
      ensures logs == []
      ensures Valid()
    {
      logs := [];
    }

    /** `write(message)`. */
    method Write(message: string)
      requires Valid()
      modifies this
      ensures logs == Logged(old(logs), message)
      ensures Valid()
    {
      var stripped := Strip(message);
      if stripped != [] {
        logs := logs + [stripped];
      }
      LoggedClean(old(logs), message);
    }

    /** `flush()` does nothing. */
    method Flush()
    {
    }

    /** The index view's `web_logger.logs = []` before a new search. */
    method Clear()
      modifies this
      ensures logs == []
      ensures Valid()
    {
      logs := [];
    }
  }
}
