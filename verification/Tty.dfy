/** The console size query of ruby_syscall_tty.c: parsing a cursor position report
    (section 8.3.14 of ECMA-48) and the one measurement that relies on it. */
module Tty {
  import opened Errno
  import opened Options

  const ESC: char := 27 as char
  const INTRO: string := [ESC, '[']
  const UINT: nat := 0x1_0000_0000
  const USHORT: nat := 0x1_0000

  /** The two digit strings of a report. */
  datatype Parsed = NoReport | Report(rows: string, cols: string)

  predicate Digit(c: char) {
    '0' <= c <= '9'
  }

  function DigitValue(c: char): nat
    requires Digit(c)
  {
    (c - '0') as nat
  }

  predicate Digits(s: string) {
    forall i :: 0 <= i < |s| ==> Digit(s[i])
  }

  /** The number written by s. */
  function Value(s: string): nat
    requires Digits(s)
  {
    if s == "" then 0 else 10 * Value(s[..|s| - 1]) + DigitValue(s[|s| - 1])
  }

  /** The number written by s in unsigned 32-bit arithmetic. */
  function Number(s: string): nat
    requires Digits(s)
  {
    Value(s) % UINT
  }

  function Print(n: nat): (s: string)
    ensures |s| > 0 && Digits(s)
  {
    if n < 10 then [n as char + '0'] else Print(n / 10) + [(n % 10) as char + '0']
  }

  // ----- the parser on texts -----

  /** What follows the first ESC [. */
  function AfterIntro(s: string): Option<string> {
    if |s| < 2 then None
    else if s[0] == ESC && s[1] == '[' then Some(s[2..])
    else AfterIntro(s[1..])
  }

  /** The longest prefix of digits. */
  function DigitPrefix(s: string): (d: string)
    ensures d <= s && Digits(d)
  {
    if s != "" && Digit(s[0]) then [s[0]] + DigitPrefix(s[1..]) else ""
  }

  /** A report starts with the first ESC [ and reads digits ; digits R. */
  function Parse(s: string): (p: Parsed)
    ensures p.Report? ==> Digits(p.rows) && Digits(p.cols)
  {
    match AfterIntro(s)
    case None => NoReport
    case Some(t) => ParseRows(t)
  }

  function ParseRows(t: string): (p: Parsed)
    ensures p.Report? ==> Digits(p.rows) && Digits(p.cols)
  {
    var d := DigitPrefix(t);
    var u := t[|d|..];
    if d == "" || u == "" || u[0] != ';' then NoReport else ParseCols(u[1..], d)
  }

  function ParseCols(t: string, rows: string): (p: Parsed)
    requires Digits(rows)
    ensures p.Report? ==> Digits(p.rows) && Digits(p.cols)
  {
    var d := DigitPrefix(t);
    var u := t[|d|..];
    if d == "" || u == "" || u[0] != 'R' then NoReport else Report(rows, d)
  }

  // ----- what is parsed -----

  predicate NoIntro(s: string) {
    AfterIntro(s).None?
  }

  function Layout(rows: string, cols: string, rest: string): string {
    rows + (";" + (cols + ("R" + rest)))
  }

  /** s is junk without ESC [, then a report of the two digit strings, then
      anything. */
  ghost predicate Reads(s: string, junk: string, rows: string, cols: string, rest: string) {
    && s == junk + (INTRO + Layout(rows, cols, rest)) && NoIntro(junk)
    && rows != "" && cols != "" && Digits(rows) && Digits(cols)
  }

  lemma {:induction false} AfterJunk(junk: string, tail: string)
    requires NoIntro(junk)
    ensures AfterIntro(junk + (INTRO + tail)) == Some(tail)
    decreases |junk|
  {
    var s := junk + (INTRO + tail);
    if junk == "" {
      assert s[2..] == tail;
    } else {
      assert s[1..] == junk[1..] + (INTRO + tail);
      assert |junk| >= 2 || s[1] == ESC;
      AfterJunk(junk[1..], tail);
    }
  }

  lemma {:induction false} JunkBefore(s: string) returns (junk: string)
    requires AfterIntro(s).Some?
    ensures s == junk + (INTRO + AfterIntro(s).value) && NoIntro(junk)
    decreases |s|
  {
    if s[0] == ESC && s[1] == '[' {
      junk := "";
    } else {
      var j := JunkBefore(s[1..]);
      junk := [s[0]] + j;
      assert junk[1..] == j;
      assert j != "" ==> j[0] == s[1];
    }
  }

  lemma {:induction false} DigitPrefixExact(d: string, tail: string)
    requires Digits(d) && (tail == "" || !Digit(tail[0]))
    ensures DigitPrefix(d + tail) == d && (d + tail)[|d|..] == tail
    decreases |d|
  {
    if d == "" {
      assert d + tail == tail;
    } else {
      assert (d + tail)[1..] == d[1..] + tail;
      DigitPrefixExact(d[1..], tail);
    }
  }

  lemma LayoutParses(rows: string, cols: string, rest: string)
    requires rows != "" && cols != "" && Digits(rows) && Digits(cols)
    ensures ParseRows(Layout(rows, cols, rest)) == Report(rows, cols)
  {
    var u := ";" + (cols + ("R" + rest));
    DigitPrefixExact(rows, u);
    assert u[1..] == cols + ("R" + rest);
    DigitPrefixExact(cols, "R" + rest);
  }

  lemma ParsedLayout(t: string) returns (rest: string)
    requires ParseRows(t).Report?
    ensures t == Layout(ParseRows(t).rows, ParseRows(t).cols, rest)
    ensures ParseRows(t).rows != "" && ParseRows(t).cols != ""
  {
    var d := DigitPrefix(t);
    var u := t[|d|..];
    var v := u[1..];
    var e := DigitPrefix(v);
    var w := v[|e|..];
    rest := w[1..];
    assert ParseRows(t) == Report(d, e);
    Rejoin(t, d);
    Rejoin(u, ";");
    Rejoin(v, e);
    Rejoin(w, "R");
  }

  lemma Rejoin(s: string, d: string)
    requires d <= s
    ensures s == d + s[|d|..]
  {
  }

  /** The parser yields two digit strings exactly on the texts whose first ESC [
      begins a report with them. */
  lemma ParseExact(s: string, rows: string, cols: string)
    ensures Parse(s) == Report(rows, cols) <==> exists junk, rest :: Reads(s, junk, rows, cols, rest)
  {
    if Parse(s) == Report(rows, cols) {
      var junk := JunkBefore(s);
      var rest := ParsedLayout(AfterIntro(s).value);
      assert Reads(s, junk, rows, cols, rest);
    }
    if junk, rest :| Reads(s, junk, rows, cols, rest) {
      AfterJunk(junk, Layout(rows, cols, rest));
      LayoutParses(rows, cols, rest);
    }
  }

  lemma {:induction false} ValuePrint(n: nat)
    ensures Value(Print(n)) == n
  {
    if n >= 10 {
      ValuePrint(n / 10);
      var s := Print(n);
      assert s[..|s| - 1] == Print(n / 10);
      assert DigitValue(s[|s| - 1]) == n % 10;
    } else {
      var s := Print(n);
      assert s[..|s| - 1] == "";
      assert DigitValue(s[0]) == n;
    }
  }

  /** Digits have their usual values, the first being the most significant. */
  lemma DecimalDigits()
    ensures Value("0123456789") == 123456789
  {
    assert Value("012") == 12 by {
      assert "012"[..2] == "01" && "01"[..1] == "0" && "0"[..0] == "";
    }
    assert Value("01234") == 1234 by {
      assert "01234"[..4] == "0123" && "0123"[..3] == "012";
    }
    assert Value("0123456") == 123456 by {
      assert "0123456"[..6] == "012345" && "012345"[..5] == "01234";
    }
    assert "0123456789"[..9] == "012345678" && "012345678"[..8] == "01234567" && "01234567"[..7] == "0123456";
  }

  /** A cursor position report. */
  function ReportText(rows: nat, cols: nat): string {
    INTRO + Layout(Print(rows), Print(cols), "")
  }

  predicate Gives(s: string, rows: nat, cols: nat) {
    var p := Parse(s);
    p.Report? && Number(p.rows) == rows && Number(p.cols) == cols
  }

  /** Printing two 32-bit values as a report and parsing it gives them back,
      whatever surrounds the report. */
  lemma RoundTrip(junk: string, rows: nat, cols: nat, rest: string)
    requires NoIntro(junk) && rows < UINT && cols < UINT
    ensures Gives(junk + (ReportText(rows, cols) + rest), rows, cols)
  {
    ValuePrint(rows);
    ValuePrint(cols);
    DigitsGive(junk, Print(rows), Print(cols), rest, rows, cols);
  }

  lemma DigitsGive(junk: string, r: string, c: string, rest: string, rows: nat, cols: nat)
    requires NoIntro(junk) && r != "" && c != "" && Digits(r) && Digits(c)
    requires rows == Value(r) % UINT && cols == Value(c) % UINT
    ensures Gives(junk + ((INTRO + Layout(r, c, "")) + rest), rows, cols)
  {
    Surrounded(junk, r, c, rest);
  }

  lemma Surrounded(junk: string, r: string, c: string, rest: string)
    requires NoIntro(junk) && r != "" && c != "" && Digits(r) && Digits(c)
    ensures Parse(junk + ((INTRO + Layout(r, c, "")) + rest)) == Report(r, c)
  {
    LayoutRest(r, c, rest);
    AfterJunk(junk, Layout(r, c, rest));
    LayoutParses(r, c, rest);
  }

  lemma LayoutRest(r: string, c: string, rest: string)
    ensures (INTRO + Layout(r, c, "")) + rest == INTRO + Layout(r, c, rest)
  {
  }

  // ----- measuring -----

  const LIMIT: nat := 31

  /** What the query loop collects: bytes up to the first 'R', at most 31. */
  function Collected(input: string, used: nat): (n: nat)
    requires used <= |input| && used <= LIMIT
    ensures used <= n <= |input| && n <= LIMIT
    decreases |input| - used
  {
    if used == LIMIT || used == |input| then used
    else if input[used] == 'R' then used + 1
    else Collected(input, used + 1)
  }

  /** The query loop ends with the first 'R', or at 31 bytes, or when the terminal falls
      silent. */
  lemma {:induction false} CollectedExact(input: string, used: nat)
    requires used <= |input| && used <= LIMIT
    ensures var n := Collected(input, used);
      && (n == LIMIT || n == |input| || (n > used && input[n - 1] == 'R'))
      && forall i :: used <= i < n - 1 ==> input[i] != 'R'
    decreases |input| - used
  {
    if used < LIMIT && used < |input| && input[used] != 'R' {
      CollectedExact(input, used + 1);
    }
  }

  lemma {:induction false} CollectsThrough(input: string, used: nat, end: nat)
    requires used <= end < |input| && end < LIMIT
    requires input[end] == 'R' && forall i :: used <= i < end ==> input[i] != 'R'
    ensures Collected(input, used) == end + 1
    decreases end - used
  {
    if used < end {
      CollectsThrough(input, used + 1, end);
    }
  }

  const ROWS: nat := 24
  const COLS: nat := 80

  /** The requests that ioctl distinguishes; a size query may lack a place for the answer. */
  datatype Request = GetSize(nullTarget: bool) | SetSize | OtherRequest

  class Console {
    var rows: nat
    var cols: nat
    var sizeKnown: bool
    var errno: int

    ghost predicate Valid()
      reads this
    {
      rows < USHORT && cols < USHORT && (!sizeKnown ==> rows == ROWS && cols == COLS)
    }

    constructor ()
      ensures Valid() && !sizeKnown
    {
      rows, cols, sizeKnown, errno := ROWS, COLS, false, 0;
    }

    /** The loop of parse_cursor_report, with its unsigned arithmetic. */
    static method ParseCursorReport(buf: string) returns (found: bool, rows: nat, cols: nat)
      ensures Yields(Parse(buf), found, rows, cols)
    {
      found, rows, cols := false, 0, 0;
      var i := 0;
      while i + 1 < |buf| && !(buf[i] == ESC && buf[i + 1] == '[')
        invariant i <= |buf| && AfterIntro(buf) == AfterIntro(buf[i..])
      {
        assert buf[i..][1..] == buf[i + 1..];
        i := i + 1;
      }
      if i + 1 >= |buf| {
        return;
      }
      i := i + 2;
      assert buf[i - 2..][2..] == buf[i..];
      found, rows, cols := ParseFields(buf, i);
    }

    /** The loop over the characters after ESC [. */
    static method ParseFields(buf: string, from: nat) returns (found: bool, rows: nat, cols: nat)
      requires from <= |buf|
      ensures Yields(ParseRows(buf[from..]), found, rows, cols)
    {
      found, rows, cols := false, 0, 0;
      var value: seq<nat> := [0, 0];
      var field: nat, digits: nat, i: nat := 0, 0, from;
      ghost var done, first, text, rest := "", "", buf[from..], buf[from..];
      StartStep(text);
      while i < |buf|
        invariant i <= |buf| && !found && |done| == digits && rest == buf[i..]
        invariant Parsing(text, rest, value, field, first, done)
      {
        var stop;
        stop, found, value, field, digits, first, done :=
          ParseChar(buf[i], value, field, digits, text, rest, first, done);
        if stop {
          if found {
            rows, cols := value[0], value[1];
          }
          return;
        }
        rest, i := rest[1..], i + 1;
      }
      EndStep(text, rest, value, field, first, done);
    }

    /** One character: a digit, the separator, or the end. */
    static method ParseChar(c: char, value: seq<nat>, field: nat, digits: nat,
                            ghost t: string, ghost rest: string, ghost first: string, ghost done: string)
      returns (stop: bool, found: bool, value': seq<nat>, field': nat, digits': nat,
               ghost first': string, ghost done': string)
      requires Parsing(t, rest, value, field, first, done) && rest != "" && rest[0] == c && |done| == digits
      ensures |value'| == 2
      ensures if stop then Yields(ParseRows(t), found, if found then value'[0] else 0, if found then value'[1] else 0)
              else !found && Parsing(t, rest[1..], value', field', first', done') && |done'| == digits'
    {
      stop, found, value', field', digits', first', done' := false, false, value, field, digits, first, done;
      if Digit(c) {
        DigitStep(t, rest, value, field, first, done);
        value' := value[field := Appended(value[field], c)];
        digits', done' := digits + 1, done + [c];
      } else if c == ';' && field == 0 && digits > 0 {
        SemicolonStep(t, rest, value, first, done);
        field', digits', first', done' := 1, 0, done, "";
      } else {
        EndStep(t, rest, value, field, first, done);
        stop, found := true, c == 'R' && field == 1 && digits > 0;
      }
    }

    /** Write the query, collect the answer, parse it.  input holds the bytes that
        arrive before the terminal falls silent. */
    method MeasureConsole(input: string)
      requires Valid() && !sizeKnown
      modifies this`rows, this`cols, this`sizeKnown
      ensures Valid() && sizeKnown
      ensures if Answered(input) then (rows, cols) == Answer(input) else rows == old(rows) && cols == old(cols)
    {
      sizeKnown := true;
      var buf := "";
      while |buf| < LIMIT && |buf| < |input| && (buf == "" || buf[|buf| - 1] != 'R')
        invariant |buf| <= |input| && |buf| <= LIMIT && buf == input[..|buf|]
        invariant if buf != "" && buf[|buf| - 1] == 'R' then Collected(input, 0) == |buf|
                  else Collected(input, 0) == Collected(input, |buf|)
      {
        buf := buf + [input[|buf|]];
      }
      var found, r, c := ParseCursorReport(buf);
      if found && r > 0 && c > 0 {
        rows, cols := r % USHORT, c % USHORT;
      }
    }

    /** ioctl on a console descriptor; only the first size query on stdin measures. */
    method Ioctl(fd: int, request: Request, input: string) returns (status: int, wsRow: nat, wsCol: nat)
      requires Valid()
      modifies this
      ensures Valid()
      ensures status == (if 0 <= fd <= 2 && (request == GetSize(false) || request == SetSize) then 0 else -1)
      ensures errno == if status == 0 then old(errno)
                       else if 0 <= fd <= 2 && request == GetSize(true) then EFAULT else ENOTTY
      ensures status == 0 && request == GetSize(false) ==> wsRow == rows && wsCol == cols
      ensures var measured := fd == 0 && request == GetSize(false) && !old(sizeKnown);
        && sizeKnown == (old(sizeKnown) || measured)
        && (rows, cols) == if !measured then old((rows, cols))
                           else if Answered(input) then Answer(input) else (ROWS, COLS)
    {
      status, wsRow, wsCol := -1, 0, 0;
      if !(0 <= fd <= 2) {
        errno := ENOTTY;
        return;
      }
      match request {
        case GetSize(nullTarget) =>
          if nullTarget {
            errno := EFAULT;
            return;
          }
          if fd == 0 && !sizeKnown {
            MeasureConsole(input);
          }
          status, wsRow, wsCol := 0, rows, cols;
        case SetSize =>
          status := 0;
        case OtherRequest =>
          errno := ENOTTY;
      }
    }
  }

  /** The answer contains a report with two non-zero values. */
  predicate Answered(input: string) {
    var p := Parse(input[..Collected(input, 0)]);
    p.Report? && Number(p.rows) > 0 && Number(p.cols) > 0
  }

  function Answer(input: string): (nat, nat)
    requires Answered(input)
  {
    var p := Parse(input[..Collected(input, 0)]);
    (Number(p.rows) % USHORT, Number(p.cols) % USHORT)
  }

  ghost predicate Yields(p: Parsed, found: bool, rows: nat, cols: nat) {
    && found == p.Report?
    && (p.Report? && Digits(p.rows) && Digits(p.cols) ==> rows == Number(p.rows) && cols == Number(p.cols))
  }

  /** Where the loop stands on the text t: it has read the digits done of the
      current field, and rest is left; first is the completed first field. */
  ghost predicate Scanning(t: string, rest: string, field: nat, first: string, done: string) {
    && Digits(done)
    && if field == 0 then t == done + rest
       else Digits(first) && ParseRows(t) == ParseCols(done + rest, first)
  }

  lemma ScanDigit(t: string, rest: string, field: nat, first: string, done: string)
    requires Scanning(t, rest, field, first, done) && rest != "" && Digit(rest[0])
    ensures Scanning(t, rest[1..], field, first, done + [rest[0]])
  {
    assert done + rest == (done + [rest[0]]) + rest[1..];
  }

  lemma ScanSemicolon(t: string, rest: string, first: string, done: string)
    requires Scanning(t, rest, 0, first, done) && done != "" && rest != "" && rest[0] == ';'
    ensures Scanning(t, rest[1..], 1, done, "")
  {
    DigitPrefixExact(done, rest);
    assert "" + rest[1..] == rest[1..];
  }

  lemma ScanEnd(t: string, rest: string, field: nat, first: string, done: string)
    requires Scanning(t, rest, field, first, done) && (rest == "" || !Digit(rest[0]))
    requires !(field == 0 && done != "" && rest != "" && rest[0] == ';')
    ensures ParseRows(t) ==
      if field != 0 && done != "" && rest != "" && rest[0] == 'R' then Report(first, done) else NoReport
  {
    DigitPrefixExact(done, rest);
  }

  /** The state of the loop: where it stands, and the numbers read so far. */
  ghost predicate Parsing(t: string, rest: string, value: seq<nat>, field: nat, first: string, done: string) {
    && |value| == 2 && field <= 1 && Digits(done) && value[field] == Number(done)
    && (if field == 0 then value[1] == 0 else Digits(first) && value[0] == Number(first))
    && Scanning(t, rest, field, first, done)
  }

  function Appended(v: nat, c: char): nat
    requires Digit(c)
  {
    (v * 10 + DigitValue(c)) % UINT
  }

  lemma StartStep(t: string)
    ensures Parsing(t, t, [0, 0], 0, "", "")
  {
    assert "" + t == t;
  }

  lemma DigitStep(t: string, rest: string, value: seq<nat>, field: nat, first: string, done: string)
    requires Parsing(t, rest, value, field, first, done) && rest != "" && Digit(rest[0])
    ensures Parsing(t, rest[1..], value[field := Appended(value[field], rest[0])], field, first, done + [rest[0]])
  {
    var next := done + [rest[0]];
    ScanDigit(t, rest, field, first, done);
    NumberAppend(done, rest[0]);
    NextField(t, rest[1..], value, field, first, next, Appended(value[field], rest[0]));
  }

  lemma NextField(t: string, rest: string, value: seq<nat>, field: nat, first: string, next: string, v: nat)
    requires |value| == 2 && field <= 1 && Digits(next) && v == Number(next)
    requires if field == 0 then value[1] == 0 else Digits(first) && value[0] == Number(first)
    requires Scanning(t, rest, field, first, next)
    ensures Parsing(t, rest, value[field := v], field, first, next)
  {
  }

  lemma SemicolonStep(t: string, rest: string, value: seq<nat>, first: string, done: string)
    requires Parsing(t, rest, value, 0, first, done) && done != "" && rest != "" && rest[0] == ';'
    ensures Parsing(t, rest[1..], value, 1, done, "")
  {
    ScanSemicolon(t, rest, first, done);
  }

  lemma EndStep(t: string, rest: string, value: seq<nat>, field: nat, first: string, done: string)
    requires Parsing(t, rest, value, field, first, done) && (rest == "" || !Digit(rest[0]))
    requires !(field == 0 && done != "" && rest != "" && rest[0] == ';')
    ensures var found := field == 1 && done != "" && rest != "" && rest[0] == 'R';
      Yields(ParseRows(t), found, value[0], value[1]) && (!found ==> Yields(ParseRows(t), false, 0, 0))
  {
    ScanEnd(t, rest, field, first, done);
  }

  lemma NumberAppend(s: string, c: char)
    requires Digits(s) && Digit(c)
    ensures Digits(s + [c]) && Number(s + [c]) == (Number(s) * 10 + DigitValue(c)) % UINT
  {
    assert (s + [c])[..|s + [c]| - 1] == s;
    WrapOnce(Value(s), DigitValue(c));
  }

  /** Reducing modulo 2^32 at every digit is the same as reducing at the end. */
  lemma WrapOnce(v: nat, d: nat)
    ensures (v % UINT * 10 + d) % UINT == (10 * v + d) % UINT
  {
  }

  /** The input is a report of these numbers: it counts exactly if neither is zero, and is
      stored modulo 2^16, which keeps exactly the numbers below. */
  predicate Measured(input: string, rows: nat, cols: nat) {
    && (Answered(input) <==> rows > 0 && cols > 0)
    && (Answered(input) ==> Answer(input) == (rows % USHORT, cols % USHORT))
    && ((Answered(input) && Answer(input) == (rows, cols)) <==> 1 <= rows < USHORT && 1 <= cols < USHORT)
  }

  /** A terminal that answers with two digit strings, after junk without 'R' or ESC [ and
      within 31 bytes, has reported their values modulo 2^32. */
  lemma MeasuresDigits(junk: string, r: string, c: string, rest: string, rows: nat, cols: nat)
    requires NoIntro(junk) && r != "" && c != "" && Digits(r) && Digits(c)
    requires rows == Value(r) % UINT && cols == Value(c) % UINT
    requires forall i :: 0 <= i < |junk| ==> junk[i] != 'R'
    requires |junk| + |INTRO + Layout(r, c, "")| <= LIMIT
    ensures Measured((junk + (INTRO + Layout(r, c, ""))) + rest, rows, cols)
  {
    var text := junk + (INTRO + Layout(r, c, ""));
    EndsAtR(junk, r, c);
    CollectsThrough(text + rest, 0, |text| - 1);
    assert (text + rest)[..|text|] == text;
    Surrounded(junk, r, c, "");
    assert text == junk + ((INTRO + Layout(r, c, "")) + "");
    CollectedReport(text + rest, text, r, c, rows, cols);
  }

  lemma CollectedReport(input: string, text: string, r: string, c: string, rows: nat, cols: nat)
    requires input[..Collected(input, 0)] == text && Parse(text) == Report(r, c) && Digits(r) && Digits(c)
    requires rows == Number(r) && cols == Number(c)
    ensures Measured(input, rows, cols)
  {
  }

  /** Answering with two 32-bit values it has reported these values. */
  lemma MeasuresExactly(junk: string, rows: nat, cols: nat, rest: string)
    requires NoIntro(junk) && rows < UINT && cols < UINT
    requires forall i :: 0 <= i < |junk| ==> junk[i] != 'R'
    requires |junk| + |ReportText(rows, cols)| <= LIMIT
    ensures Measured((junk + ReportText(rows, cols)) + rest, rows, cols)
  {
    ValuePrint(rows);
    ValuePrint(cols);
    MeasuresDigits(junk, Print(rows), Print(cols), rest, rows, cols);
  }

  lemma EndsAtR(junk: string, r: string, c: string)
    requires forall i :: 0 <= i < |junk| ==> junk[i] != 'R'
    requires Digits(r) && Digits(c)
    ensures var text := junk + (INTRO + Layout(r, c, ""));
      text != "" && text[|text| - 1] == 'R' && forall i :: 0 <= i < |text| - 1 ==> text[i] != 'R'
  {
    var text := junk + (INTRO + Layout(r, c, ""));
    var front := junk + INTRO + r + ";" + c;
    assert text == front + "R";
    assert forall i :: 0 <= i < |front| ==> front[i] != 'R';
  }
}
