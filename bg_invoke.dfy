/** `base_mt/bg_invoke.py`: running a target in the background, recording how
    it ended in `_result`, and reading that record back through `result`.

    The thread itself is not modelled: how the target call ended is a
    parameter of `Wrapper`, the thread identifier is a number fixed at
    construction, and the lines `format_exception` produces for the stored
    exception are a parameter of `Result`. */
module BackgroundInvoke {

  datatype Option<+T> = None | Some(value: T)

  /** The Python values `_result` can hold, as far as `result` tells them
      apart: a tuple, a class (with whether it derives from `Exception`), or
      any other object. */
  datatype Value =
    | Object(repr: string)
    | Class(name: string, isException: bool)
    | Tuple(items: seq<Value>)

  /** How the call of the target ended: it returned a value, or it raised an
      exception of class `excType`; `isException` tells whether that class
      derives from `Exception`, which is what `except Exception` catches. */
  datatype Call =
    | Returned(value: Value)
    | Raised(excType: string, isException: bool, excValue: Value, traceback: Value)

  /** What reading `result` does: return a value or raise one of these. */
  datatype Read =
    | Returns(value: Value)
    | RaisesBgException(error: BgException)
    | RaisesValueError(message: string)
    | RaisesTypeError
    | RaisesIndexError

  /** The exception `result` raises for a failure in the background; its
      message is the text its constructor assembles. */
  datatype BgException = BgException(message: string)

  // ---------------------------------------------------------------------
  // Lines joined and split on newlines
  // ---------------------------------------------------------------------

  /** `'\n'.join(lines)`. */
  function JoinLines(lines: seq<string>): string
    decreases |lines|
  {
    if lines == [] then ""
    else if |lines| == 1 then lines[0]
    else lines[0] + "\n" + JoinLines(lines[1..])
  }

  /** `s.split('\n')`: the pieces between newlines, at least one. */
  function SplitLines(s: string): (lines: seq<string>)
    decreases |s|
    ensures |lines| >= 1
  {
    if s == [] then [""]
    else
      var rest := SplitLines(s[1..]);
      if s[0] == '\n' then [""] + rest
      else [[s[0]] + rest[0]] + rest[1..]
  }

  /** Appending a line to a non-empty list appends a newline and the line. */
  lemma {:induction false} JoinLinesSnoc(lines: seq<string>, last: string)
    requires lines != []
    decreases |lines|
    ensures JoinLines(lines + [last]) == JoinLines(lines) + "\n" + last
  {
    var longer := lines + [last];
    if |lines| > 1 {
      assert longer[1..] == lines[1..] + [last];
      JoinLinesSnoc(lines[1..], last);
    } else {
      assert longer[1..] == [last];
    }
  }

  /** Text without a newline in front of `t` only extends the first piece. */
  lemma {:induction false} SplitLinesPrefix(a: string, t: string)
    requires '\n' !in a
    decreases |a|
    ensures SplitLines(a + t) == [a + SplitLines(t)[0]] + SplitLines(t)[1..]
  {
    if a != [] {
      assert (a + t)[1..] == a[1..] + t;
      assert a[0] in a;
      SplitLinesPrefix(a[1..], t);
      assert [a[0]] + (a[1..] + SplitLines(t)[0]) == a + SplitLines(t)[0];
    } else {
      var pieces := SplitLines(t);
      assert a + t == t && a + pieces[0] == pieces[0];
      assert pieces == [pieces[0]] + pieces[1..];
    }
  }

  /** Splitting joined lines gives them back, when none holds a newline. */
  lemma {:induction false} SplitJoinLines(lines: seq<string>)
    requires |lines| >= 1
    requires forall i :: 0 <= i < |lines| ==> '\n' !in lines[i]
    decreases |lines|
    ensures SplitLines(JoinLines(lines)) == lines
  {
    SplitLinesPrefix(lines[0], []);
    assert lines[0] + [] == lines[0];
    if |lines| > 1 {
      var rest := JoinLines(lines[1..]);
      SplitJoinLines(lines[1..]);
      assert lines[0] + "\n" + rest == lines[0] + ("\n" + rest);
      SplitLinesPrefix(lines[0], "\n" + rest);
      assert ("\n" + rest)[1..] == rest;
      assert lines == [lines[0]] + lines[1..];
    }
  }

  /** The pieces `split('\n')` gives for each of `lines`, one after another. */
  function SplitEach(lines: seq<string>): (pieces: seq<string>)
    decreases |lines|
    ensures |pieces| >= |lines|
  {
    if lines == [] then [] else SplitLines(lines[0]) + SplitEach(lines[1..])
  }

  /** `split('\n')` of a string that starts with a newline. */
  lemma SplitLinesNewline(s: string)
    ensures SplitLines("\n" + s) == [""] + SplitLines(s)
  {
    assert ("\n" + s)[0] == '\n' && ("\n" + s)[1..] == s;
  }

  /** The index of the first newline of `s`. */
  function FirstNewline(s: string): (k: nat)
    requires '\n' in s
    ensures k < |s| && s[k] == '\n' && '\n' !in s[..k]
  {
    if s[0] == '\n' then 0
    else
      var k := FirstNewline(s[1..]);
      assert s[..k + 1] == [s[0]] + s[1..][..k];
      k + 1
  }

  /** A line without newlines, then a newline: the line is the first piece. */
  lemma SplitLinesLine(a: string, t: string)
    requires '\n' !in a
    ensures SplitLines(a + "\n" + t) == [a] + SplitLines(t)
  {
    assert a + "\n" + t == a + ("\n" + t);
    SplitLinesPrefix(a, "\n" + t);
    SplitLinesNewline(t);
    assert a + "" == a;
  }

  /** Splitting around a newline splits each side on its own. */
  lemma {:induction false} SplitLinesAround(a: string, t: string)
    decreases |a|
    ensures SplitLines(a + "\n" + t) == SplitLines(a) + SplitLines(t)
  {
    if '\n' !in a {
      SplitLinesLine(a, t);
      assert SplitLines(a) == [a] by {
        SplitLinesPrefix(a, []);
        assert a + [] == a;
      }
    } else {
      var k := FirstNewline(a);
      var first, more := a[..k], a[k + 1..];
      assert a == first + "\n" + more;
      var r, u := SplitLines(more), SplitLines(t);
      assert SplitLines(a + "\n" + t) == [first] + (r + u) by {
        assert a + "\n" + t == first + "\n" + (more + "\n" + t);
        SplitLinesLine(first, more + "\n" + t);
        SplitLinesAround(more, t);
      }
      assert SplitLines(a) == [first] + r by {
        SplitLinesLine(first, more);
      }
      assert [first] + (r + u) == ([first] + r) + u;
    }
  }

  /** Splitting concatenated lists of lines splits each list on its own. */
  lemma {:induction false} SplitEachAppend(a: seq<string>, b: seq<string>)
    decreases |a|
    ensures SplitEach(a + b) == SplitEach(a) + SplitEach(b)
  {
    if a != [] {
      assert (a + b)[0] == a[0] && (a + b)[1..] == a[1..] + b;
      SplitEachAppend(a[1..], b);
    } else {
      assert a + b == b;
    }
  }

  /** Splitting joined lines gives, in order, the pieces of every line, so a
      line that holds newlines of its own becomes several. */
  lemma {:induction false} SplitJoinLinesEach(lines: seq<string>)
    requires lines != []
    decreases |lines|
    ensures SplitLines(JoinLines(lines)) == SplitEach(lines)
  {
    if |lines| == 1 {
      assert lines[1..] == [];
      assert SplitEach(lines) == SplitLines(lines[0]) + [];
    } else {
      SplitJoinLinesEach(lines[1..]);
      SplitLinesAround(lines[0], JoinLines(lines[1..]));
    }
  }

  // ---------------------------------------------------------------------
  // BgException
  // ---------------------------------------------------------------------

  /** Each formatted chunk with two spaces in front of it. */
  function Indent(formatted: seq<string>): (lines: seq<string>)
    ensures |lines| == |formatted|
    ensures forall i :: 0 <= i < |formatted| ==> lines[i] == "  " + formatted[i]
  {
    seq(|formatted|, i requires 0 <= i < |formatted| => "  " + formatted[i])
  }

  /** The lines `BgException.__init__` joins: the message, an opening brace,
      each traceback line indented by two spaces, a closing brace. */
  function ExceptionLines(message: string, formatted: seq<string>): (lines: seq<string>)
    ensures |lines| == |formatted| + 3
    ensures lines[0] == message && lines[1] == "{" && lines[|lines| - 1] == "}"
    ensures forall i :: 0 <= i < |formatted| ==> lines[i + 2] == "  " + formatted[i]
  {
    [message, "{"] + Indent(formatted) + ["}"]
  }

  /** `BgException(message, exc_info)`, given the lines `format_exception`
      produced for `exc_info`: the text opens with the message and a brace on
      the next line, and ends with a brace on a line of its own. */
  function NewBgException(message: string, formatted: seq<string>): (e: BgException)
    ensures |e.message| >= |message| + 2 && e.message[..|message| + 2] == message + "\n{"
    ensures |e.message| >= 2 && e.message[|e.message| - 2..] == "\n}"
  {
    var lines := ExceptionLines(message, formatted);
    var text := JoinLines(lines);
    var inner := JoinLines(lines[2..]);
    assert text == (message + "\n{") + ("\n" + inner) by {
      assert lines[1..][1..] == lines[2..];
      assert JoinLines(lines[1..]) == "{" + "\n" + inner;
      assert text == message + "\n" + JoinLines(lines[1..]);
    }
    assert text == JoinLines(lines[..|lines| - 1]) + "\n}" by {
      JoinLinesSnoc(lines[..|lines| - 1], "}");
      assert lines[..|lines| - 1] + ["}"] == lines;
    }
    BgException(text)
  }

  /** The physical lines of the exception text, whatever the chunks hold:
      those of the message, `{`, those of every indented chunk in order,
      `}`. */
  lemma BgExceptionLines(message: string, formatted: seq<string>)
    ensures SplitLines(NewBgException(message, formatted).message)
            == SplitLines(message) + ["{"] + SplitEach(Indent(formatted)) + ["}"]
  {
    var head: seq<string> := [message, "{"];
    var lines := ExceptionLines(message, formatted);
    assert lines == head + Indent(formatted) + ["}"];
    SplitJoinLinesEach(lines);
    SplitEachAppend(head + Indent(formatted), ["}"]);
    SplitEachAppend(head, Indent(formatted));
    assert SplitEach(head) == SplitLines(message) + ["{"] by {
      assert head[1..] == ["{"];
      assert SplitLines("{") == ["{"] by {
        assert "{"[1..] == [] && SplitLines([]) == [""];
        assert ['{'] + "" == "{";
      }
      assert SplitEach(["{"]) == ["{"] + [];
    }
    assert SplitEach(["}"]) == ["}"] by {
      assert SplitLines("}") == ["}"] by {
        assert "}"[1..] == [] && SplitLines([]) == [""];
        assert ['}'] + "" == "}";
      }
    }
  }

  /** Splitting text that ends in a newline leaves an empty last piece. */
  lemma SplitLinesNewlineEnd(s: string)
    ensures SplitLines(s + "\n") == SplitLines(s) + [""]
  {
    assert s + "\n" == s + "\n" + "";
    SplitLinesAround(s, "");
  }

  /** Two spaces in front of a text extend only its first piece. */
  lemma SplitLinesIndent(s: string)
    ensures SplitLines("  " + s) == ["  " + SplitLines(s)[0]] + SplitLines(s)[1..]
  {
    assert '\n' !in "  ";
    SplitLinesPrefix("  ", s);
  }

  /** A chunk `text + "\n"`, ending in a newline as every chunk that
      `format_exception` returns does: after two spaces in front, only the
      first physical line of `text` is indented, and a blank line follows. */
  lemma IndentedChunk(text: string)
    ensures var body := SplitLines(text);
            SplitLines("  " + (text + "\n")) == ["  " + body[0]] + body[1..] + [""]
  {
    var body := SplitLines(text);
    SplitLinesNewlineEnd(text);
    SplitLinesIndent(text + "\n");
    assert (body + [""])[0] == body[0];
    assert (body + [""])[1..] == body[1..] + [""];
    assert ["  " + body[0]] + (body[1..] + [""]) == (["  " + body[0]] + body[1..]) + [""];
  }

  // ---------------------------------------------------------------------
  // _wrapper and result
  // ---------------------------------------------------------------------

  /** `str(n)` for a natural number. */
  function Decimal(n: nat): (s: string)
    ensures s != [] && forall k :: 0 <= k < |s| ==> '0' <= s[k] <= '9'
  {
    var digit := [('0' as int + n % 10) as char];
    if n < 10 then digit else Decimal(n / 10) + digit
  }

  /** The first line of the exception `result` raises. */
  function Header(ident: nat): (h: string)
    ensures '\n' !in h
  {
    var d := Decimal(ident);
    assert forall k :: 0 <= k < |d| ==> d[k] != '\n';
    "Exception raised in background thread " + d
  }

  /** The tuple `sys.exc_info()` gives while the raised exception is handled. */
  function ExcInfo(call: Call): Value
    requires call.Raised?
  {
    Tuple([Class(call.excType, call.isException), call.excValue, call.traceback])
  }

  /** What `_wrapper` leaves in `_result`: the returned value, the exception
      information when an `Exception` was raised, and otherwise (an exception
      that `except Exception` does not catch) whatever was there before. */
  function Capture(prev: Option<Value>, call: Call): (r: Option<Value>)
    ensures r.None? <==> prev.None? && call.Raised? && !call.isException
    ensures call.Returned? ==> r == Some(call.value)
    ensures call.Raised? && call.isException ==>
              && r.Some? && r.value.Tuple? && |r.value.items| == 3
              && r.value.items[0] == Class(call.excType, true)
    ensures call.Raised? && !call.isException ==> r == prev
  {
    match call
    case Returned(v) => Some(v)
    case Raised(_, isException, _, _) => if isException then Some(ExcInfo(call)) else prev
  }

  /** Reading `result` with `stored` as `_result` (absent when `None`). */
  function ReadResult(stored: Option<Value>, ident: nat, formatted: seq<string>): (r: Read)
    ensures stored.None? <==> r.RaisesValueError?
    ensures r.Returns? ==> stored == Some(r.value)
    ensures stored.Some? && !stored.value.Tuple? ==> r == Returns(stored.value)
    ensures r.RaisesBgException? ==>
              && stored.Some? && stored.value.Tuple? && stored.value.items != []
              && stored.value.items[0].Class? && stored.value.items[0].isException
  {
    match stored
    case None => RaisesValueError("Result is not available.")
    case Some(v) =>
      if !v.Tuple? then Returns(v)
      else if v.items == [] then RaisesIndexError
      else if !v.items[0].Class? then RaisesTypeError
      else if v.items[0].isException then RaisesBgException(NewBgException(Header(ident), formatted))
      else Returns(v)
  }

  /** An exception the target raises is reported by `result` as a
      `BgException` naming the thread and carrying the traceback. */
  lemma RaisedIsReported(prev: Option<Value>, call: Call, ident: nat, formatted: seq<string>)
    requires call.Raised? && call.isException
    ensures ReadResult(Capture(prev, call), ident, formatted)
            == RaisesBgException(NewBgException(Header(ident), formatted))
  {
  }

  /** A value the target returns is what `result` returns, unless it is a
      tuple (see `ReturnedTupleMisread`). */
  lemma ReturnedIsRead(prev: Option<Value>, v: Value, ident: nat, formatted: seq<string>)
    requires !v.Tuple?
    ensures ReadResult(Capture(prev, Returned(v)), ident, formatted) == Returns(v)
  {
  }

  /** An exception that does not derive from `Exception` escapes `_wrapper`
      and leaves `_result` as it was, so `result` reads as before. */
  lemma UncaughtKeepsResult(prev: Option<Value>, call: Call, ident: nat, formatted: seq<string>)
    requires call.Raised? && !call.isException
    ensures ReadResult(Capture(prev, call), ident, formatted) == ReadResult(prev, ident, formatted)
  {
  }

  /** As written, a target that completes normally but returns a tuple is
      misread: `()` makes `result` raise `IndexError`, `(1, 2)` makes it
      raise `TypeError` from `issubclass`, and a tuple that starts with an
      exception class, such as `(ValueError, v, None)`, is reported as a
      failure in the background. */
  lemma ReturnedTupleMisread(prev: Option<Value>, ident: nat, formatted: seq<string>, name: string)
    ensures ReadResult(Capture(prev, Returned(Tuple([]))), ident, formatted) == RaisesIndexError
    ensures ReadResult(Capture(prev, Returned(Tuple([Object("1"), Object("2")]))), ident, formatted)
            == RaisesTypeError
    ensures ReadResult(Capture(prev, Returned(Tuple([Class(name, true), Object("v"), Object("None")]))), ident, formatted)
            .RaisesBgException?
  {
  }

  /** The record as evidently intended: how the call ended, tagged. */
  datatype Outcome = Completed(value: Value) | Failed(excInfo: Value)

  /** `_wrapper` storing a tagged outcome. */
  function CaptureOutcome(prev: Option<Outcome>, call: Call): (r: Option<Outcome>)
    ensures r.None? <==> prev.None? && call.Raised? && !call.isException
    ensures call.Returned? ==> r == Some(Completed(call.value))
    ensures call.Raised? && call.isException ==> r == Some(Failed(ExcInfo(call)))
    ensures call.Raised? && !call.isException ==> r == prev
  {
    match call
    case Returned(v) => Some(Completed(v))
    case Raised(_, isException, _, _) => if isException then Some(Failed(ExcInfo(call))) else prev
  }

  /** `result` reading a tagged outcome: no dispatch on the shape of the value. */
  function ReadOutcome(stored: Option<Outcome>, ident: nat, formatted: seq<string>): (r: Read)
    ensures stored.None? <==> r.RaisesValueError?
    ensures r.Returns? <==> stored.Some? && stored.value.Completed?
    ensures r.Returns? ==> r.value == stored.value.value
  {
    match stored
    case None => RaisesValueError("Result is not available.")
    case Some(Completed(v)) => Returns(v)
    case Some(Failed(_)) => RaisesBgException(NewBgException(Header(ident), formatted))
  }

  /** With a tagged outcome, `result` returns exactly what the target
      returned, whatever its shape, and raises exactly when it raised. */
  lemma FixedResultIsFaithful(prev: Option<Outcome>, call: Call, ident: nat, formatted: seq<string>)
    ensures call.Returned? ==> ReadOutcome(CaptureOutcome(prev, call), ident, formatted) == Returns(call.value)
    ensures call.Raised? && call.isException ==>
              ReadOutcome(CaptureOutcome(prev, call), ident, formatted)
              == RaisesBgException(NewBgException(Header(ident), formatted))
  {
  }

  /** A background invocation: the thread's identifier and `_result`. */
  class BgInvoke {
    const threadIdent: nat
    var stored: Option<Value>

    /** Right after `__init__` has started the thread, no result is stored. */
    constructor (ident: nat)
      ensures threadIdent == ident && stored == None
    {
      threadIdent := ident;
      stored := None;
    }

    /** `_wrapper`: run the target and store its return value, or the
        exception information when it raises an `Exception`. */
    method Wrapper(call: Call)
      modifies this
      ensures stored == Capture(old(stored), call)
      ensures call.Returned? ==> stored == Some(call.value)
      ensures call.Raised? && call.isException ==> stored == Some(ExcInfo(call))
      ensures call.Raised? && !call.isException ==> stored == old(stored)
    {
      stored := Capture(stored, call);
    }

    /** The `result` property; `formatted` is what `format_exception` gives
        for the stored exception information.  It changes nothing, so
        repeated reads agree. */
    method Result(formatted: seq<string>) returns (r: Read)
      ensures r == ReadResult(stored, threadIdent, formatted)
      ensures stored.None? <==> r.RaisesValueError?
      ensures r.Returns? ==> stored == Some(r.value)
    {
      r := ReadResult(stored, threadIdent, formatted);
    }
  }
}
