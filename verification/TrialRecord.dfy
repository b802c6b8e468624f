/**
  The text of the trial record (trial_write and trial_read in version_manager.c): key=value lines,
  written by one printf and read back with fgets into fixed buffers.
 */
module TrialRecord {
  import opened Bytes

  const LINE_BUF := 640
  const DIR_BUF := 512
  const TIME_BUF := 32

  /** version_trial_t; C strings, so shorter than their buffers. */
  datatype Trial = Trial(newDir: string, prevDir: string, attempts: u32, time: string)

  const EMPTY := Trial("", "", 0, "")

  predicate InBuffers(t: Trial) {
    |t.newDir| < DIR_BUF && |t.prevDir| < DIR_BUF && |t.time| < TIME_BUF
  }

  function Digits(n: nat): string {
    (if n < 10 then "" else Digits(n / 10)) + ["0123456789"[n % 10]]
  }

  function Line(key: string, val: string): string {
    key + "=" + val + "\n"
  }

  /** The format string of trial_write. */
  function Render(t: Trial): string {
    Line("new", t.newDir)
    + (Line("previous", t.prevDir) + (Line("attempts", Digits(t.attempts)) + Line("time", t.time)))
  }

  /** A line break, or the NUL that ends a C string and so ends the line for strcspn and strchr. */
  predicate IsBreak(c: char) {
    c == '\r' || c == '\n' || c == '\0'
  }

  predicate Clean(s: string) {
    forall k :: 0 <= k < |s| ==> !IsBreak(s[k])
  }

  /** fgets: up to and including the next line feed, but no more than the buffer takes. */
  function LineLength(s: string, k: nat): (n: nat)
    requires k <= |s|
    ensures k <= n <= |s|
    decreases |s| - k
  {
    if k == |s| || k >= LINE_BUF - 1 then k else if s[k] == '\n' then k + 1 else LineLength(s, k + 1)
  }

  /** strcspn(line, "\r\n"), which also stops at the end of the string */
  function Span(s: string, k: nat): (n: nat)
    requires k <= |s|
    ensures k <= n <= |s| && (n == |s| || IsBreak(s[n])) && forall j :: k <= j < n ==> !IsBreak(s[j])
    decreases |s| - k
  {
    if k == |s| || IsBreak(s[k]) then k else Span(s, k + 1)
  }

  /** strchr(line, '='); the length when there is none */
  function EqualsAt(s: string, k: nat): (n: nat)
    requires k <= |s|
    ensures k <= n <= |s| && (n < |s| ==> s[n] == '=') && forall j :: k <= j < n ==> s[j] != '='
    decreases |s| - k
  {
    if k == |s| || s[k] == '=' then k else EqualsAt(s, k + 1)
  }

  function Truncated(s: string, size: nat): string
    requires size > 0
  {
    s[..Min(|s|, size - 1)]
  }

  predicate IsDigit(c: char) {
    '0' <= c <= '9'
  }

  /** The value of the leading digits. */
  function Number(s: string, sofar: nat): nat {
    if s == "" || !IsDigit(s[0]) then sofar else Number(s[1..], 10 * sofar + (s[0] as int - '0' as int))
  }

  /** isspace */
  predicate IsSpace(c: char) {
    c == ' ' || 9 <= c as int <= 13
  }

  function SkipSpaces(s: string): string {
    if s == "" || !IsSpace(s[0]) then s else SkipSpaces(s[1..])
  }

  /**
    (uint32_t)strtoul(s, NULL, 10) where unsigned long has 64 bits: white space and a sign may come
    first, a negative number wraps, and one that is too large becomes the largest.
   */
  function StrToUl(s: string): u32 {
    var body := SkipSpaces(s);
    var signed := body != "" && (body[0] == '-' || body[0] == '+');
    var v := Number(if signed then body[1..] else body, 0);
    if v >= 0x1_0000_0000_0000_0000 then 0xFFFF_FFFF
    else if signed && body[0] == '-' then (0x1_0000_0000_0000_0000 - v) % 0x1_0000_0000
    else v % 0x1_0000_0000
  }

  function Set(t: Trial, key: string, val: string): Trial {
    if key == "new" then t.(newDir := Truncated(val, DIR_BUF))
    else if key == "previous" then t.(prevDir := Truncated(val, DIR_BUF))
    else if key == "attempts" then t.(attempts := StrToUl(val))
    else if key == "time" then t.(time := Truncated(val, TIME_BUF))
    else t
  }

  /** One line of the file. */
  function Apply(t: Trial, raw: string): Trial {
    var line := raw[..Span(raw, 0)];
    var eq := EqualsAt(line, 0);
    if eq == |line| then t else Set(t, line[..eq], line[eq + 1..])
  }

  /** The fields after the rest of a file has been read. */
  function ReadFrom(t: Trial, text: string): Trial
    decreases |text|
  {
    if text == "" then t
    else
      var n := LineLength(text, 0);
      if n == 0 then t else ReadFrom(Apply(t, text[..n]), text[n..])
  }

  /** trial_read of a file that can be opened; it succeeds when a version is named. */
  method Read(text: string) returns (t: Trial, ok: bool)
    ensures t == ReadFrom(EMPTY, text) && ok == (t.newDir != "")
  {
    hide Apply;
    t := EMPTY;
    var at := 0;
    assert text[0..] == text;
    while at < |text|
      invariant at <= |text|
      invariant ReadFrom(EMPTY, text) == ReadFrom(t, text[at..])
    {
      var n := LineLength(text[at..], 0);
      NextLine(text[at..]);
      assert text[at..][n..] == text[at + n..] && text[at..][..n] == text[at..at + n];
      t := Apply(t, text[at..at + n]);
      at := at + n;
    }
    ok := t.newDir != "";
  }

  /** There is always a next line. */
  lemma NextLine(s: string)
    requires s != ""
    ensures LineLength(s, 0) > 0
  {
  }

  lemma {:induction false} LineEnds(s: string, k: nat, n: nat)
    requires k <= n < |s| && n < LINE_BUF - 1 && s[n] == '\n' && forall j :: k <= j < n ==> s[j] != '\n'
    ensures LineLength(s, k) == n + 1
    decreases n - k
  {
    if k < n {
      LineEnds(s, k + 1, n);
    }
  }

  /** A key and a value without line breaks come back as they were written. */
  lemma LineRead(t: Trial, key: string, val: string, rest: string)
    requires Clean(key) && '=' !in key && Clean(val) && |key| + |val| < LINE_BUF - 2
    ensures ReadFrom(t, Line(key, val) + rest) == ReadFrom(Set(t, key, val), rest)
  {
    hide Set;
    var line := key + "=" + val;
    var raw := Line(key, val);
    var text := raw + rest;
    assert raw == line + "\n";
    assert Clean(line);
    assert forall j :: 0 <= j < |line| ==> text[j] == line[j] && raw[j] == line[j];
    assert text[|line|] == '\n' && raw[|line|] == '\n';
    LineEnds(text, 0, |line|);
    assert text[..|line| + 1] == raw && text[|line| + 1..] == rest;
    assert Span(raw, 0) == |line|;
    assert raw[..|line|] == line;
    assert line[|key|] == '=' && forall j :: 0 <= j < |key| ==> line[j] == key[j];
    assert EqualsAt(line, 0) == |key|;
    assert line[..|key|] == key && line[|key| + 1..] == val;
  }

  lemma {:induction false} DigitFirst(n: nat)
    ensures |Digits(n)| > 0 && IsDigit(Digits(n)[0])
  {
    LastDigit(n % 10);
    if n >= 10 {
      DigitFirst(n / 10);
    }
  }

  lemma DigitsRead(n: u32)
    ensures StrToUl(Digits(n)) == n
  {
    hide Digits, Number;
    NumberOfDigits(n, 0, "");
    DigitFirst(n);
    assert Digits(n) + "" == Digits(n);
    assert Number("", n) == n by {
      NumberOfNothing(n);
    }
  }

  lemma NumberOfNothing(n: nat)
    ensures Number("", n) == n
  {
  }

  function Pow10(k: nat): nat {
    if k == 0 then 1 else 10 * Pow10(k - 1)
  }

  lemma NumberStep(d: nat, rest: string, sofar: nat)
    requires d < 10
    ensures Number(["0123456789"[d]] + rest, sofar) == Number(rest, 10 * sofar + d)
  {
    LastDigit(d);
    assert (["0123456789"[d]] + rest)[1..] == rest;
  }

  lemma DigitsSplit(n: nat, rest: string)
    requires n >= 10
    ensures Digits(n) + rest == Digits(n / 10) + (["0123456789"[n % 10]] + rest)
    ensures Pow10(|Digits(n)|) == 10 * Pow10(|Digits(n / 10)|)
  {
    Assoc(Digits(n / 10), ["0123456789"[n % 10]], rest);
  }

  /** The number whose digits are those of `sofar` followed by those of `n`. */
  function Joined(sofar: nat, p: nat, n: nat): nat {
    sofar * p + n
  }

  lemma JoinedStep(sofar: nat, p: nat, n: nat)
    ensures 10 * Joined(sofar, p, n / 10) + n % 10 == Joined(sofar, 10 * p, n)
    ensures n < 10 ==> Joined(sofar, 10, n) == 10 * sofar + n
  {
  }

  lemma OneDigit(n: nat)
    requires n < 10
    ensures Digits(n) == ["0123456789"[n % 10]] && Pow10(|Digits(n)|) == 10
  {
    assert Pow10(1) == 10;
  }

  lemma {:induction false} NumberOfDigits(n: nat, sofar: nat, rest: string)
    ensures Number(Digits(n) + rest, sofar) == Number(rest, Joined(sofar, Pow10(|Digits(n)|), n))
    decreases n
  {
    hide Number, Digits, Pow10, Joined;
    if n < 10 {
      OneDigit(n);
      NumberStep(n, rest, sofar);
      JoinedStep(sofar, 1, n);
    } else {
      var p := Pow10(|Digits(n / 10)|);
      DigitsSplit(n, rest);
      NumberOfDigits(n / 10, sofar, ["0123456789"[n % 10]] + rest);
      NumberStep(n % 10, rest, Joined(sofar, p, n / 10));
      JoinedStep(sofar, p, n);
    }
  }

  lemma LastDigit(d: nat)
    requires d < 10
    ensures IsDigit("0123456789"[d]) && "0123456789"[d] as int - '0' as int == d
  {
  }

  lemma {:induction false} DigitsClean(n: nat)
    ensures Clean(Digits(n))
  {
    LastDigit(n % 10);
    if n >= 10 {
      DigitsClean(n / 10);
    }
  }

  lemma {:induction false} DigitsShort(n: nat, k: nat)
    requires n < Pow10(k) && k > 0
    ensures |Digits(n)| <= k
    decreases k
  {
    if n >= 10 {
      DigitsShort(n / 10, k - 1);
    }
  }

  predicate CleanFields(t: Trial) {
    Clean(t.newDir) && Clean(t.prevDir) && Clean(t.time)
  }

  lemma ApplyIsClean(t: Trial, raw: string)
    requires CleanFields(t)
    ensures CleanFields(Apply(t, raw))
  {
    var line := raw[..Span(raw, 0)];
    var eq := EqualsAt(line, 0);
    if eq < |line| {
      SetIsClean(t, line[..eq], line[eq + 1..]);
    }
  }

  lemma SetIsClean(t: Trial, key: string, val: string)
    requires CleanFields(t) && Clean(val)
    ensures CleanFields(Set(t, key, val))
  {
  }

  /** Nothing that is read ever holds a line break, whatever the file holds. */
  lemma {:induction false} ReadIsClean(t: Trial, text: string)
    requires CleanFields(t)
    ensures CleanFields(ReadFrom(t, text))
    decreases |text|
  {
    if text != "" {
      var n := LineLength(text, 0);
      if n > 0 {
        ApplyIsClean(t, text[..n]);
        ReadIsClean(Apply(t, text[..n]), text[n..]);
      }
    }
  }

  /**
    A record that has been written reads back as it was exactly when none of its strings holds a
    line break (or a NUL, which no C string holds).
   */
  lemma RecordRoundTrip(t: Trial)
    requires InBuffers(t)
    ensures ReadFrom(EMPTY, Render(t)) == t <==> CleanFields(t)
  {
    ReadIsClean(EMPTY, Render(t));
    if CleanFields(t) {
      CleanRecord(t);
    }
  }

  lemma CleanRecord(t: Trial)
    requires InBuffers(t) && CleanFields(t)
    ensures ReadFrom(EMPTY, Render(t)) == t
  {
    hide ReadFrom, Line, Digits, Pow10, Number;
    var digits := Digits(t.attempts);
    DigitsClean(t.attempts);
    TenDigits();
    DigitsShort(t.attempts, 10);
    DigitsRead(t.attempts);
    var l2, l3, l4 := Line("previous", t.prevDir), Line("attempts", digits), Line("time", t.time);
    LineRead(EMPTY, "new", t.newDir, l2 + (l3 + l4));
    var t1 := Set(EMPTY, "new", t.newDir);
    LineRead(t1, "previous", t.prevDir, l3 + l4);
    var t2 := Set(t1, "previous", t.prevDir);
    LineRead(t2, "attempts", digits, l4);
    var t3 := Set(t2, "attempts", digits);
    assert l4 + "" == l4;
    LineRead(t3, "time", t.time, "");
    var t4 := Set(t3, "time", t.time);
    ReadNothing(t4);
  }

  lemma TenDigits()
    ensures Pow10(10) == 10_000_000_000
  {
    assert Pow10(5) == 100_000;
  }

  lemma ReadNothing(t: Trial)
    ensures ReadFrom(t, "") == t
  {
  }

  // ---------------------------------------------------------------- a text cut short

  /** What is read always fits the buffers, whatever the file holds. */
  lemma {:induction false} ReadFits(t: Trial, text: string)
    requires InBuffers(t)
    ensures InBuffers(ReadFrom(t, text))
    decreases |text|
  {
    hide Apply;
    if text != "" {
      var n := LineLength(text, 0);
      if n > 0 {
        ApplyFits(t, text[..n]);
        ReadFits(Apply(t, text[..n]), text[n..]);
      }
    }
  }

  lemma ApplyFits(t: Trial, raw: string)
    requires InBuffers(t)
    ensures InBuffers(Apply(t, raw))
  {
  }

  lemma {:induction false} LastLine(s: string, k: nat)
    requires k <= |s| < LINE_BUF && forall j :: k <= j < |s| ==> s[j] != '\n'
    ensures LineLength(s, k) == |s|
    decreases |s| - k
  {
    if k < |s| {
      LastLine(s, k + 1);
    }
  }

  /** What the first `n` characters of a line without its end set. */
  function SetCut(t: Trial, key: string, val: string, n: nat): Trial
    requires n <= |key| + 1 + |val|
  {
    if n <= |key| then t else Set(t, key, val[..n - |key| - 1])
  }

  /** A last line that breaks off in the key sets nothing; in the value, what is there of it. */
  lemma CutRead(t: Trial, key: string, val: string, n: nat)
    requires Clean(key) && '=' !in key && Clean(val) && |key| + |val| < LINE_BUF - 2
    requires n <= |key| + 1 + |val|
    ensures ReadFrom(t, (key + "=" + val)[..n]) == SetCut(t, key, val, n)
  {
    hide Set;
    var text := (key + "=" + val)[..n];
    assert forall j :: 0 <= j < n && j < |key| ==> text[j] == key[j];
    assert forall j :: |key| < j < n ==> text[j] == val[j - |key| - 1];
    assert Clean(text);
    LastLine(text, 0);
    assert text[..n] == text && text[n..] == "";
    assert Span(text, 0) == n;
    if n <= |key| {
      assert EqualsAt(text, 0) == n;
    } else {
      assert text[|key|] == '=' && EqualsAt(text, 0) == |key|;
      assert text[..|key|] == key && text[|key| + 1..] == val[..n - |key| - 1];
    }
    ReadNothing(SetCut(t, key, val, n));
  }

  /** The first `n` characters of a text that begins with a line. */
  lemma LineCut(t: Trial, key: string, val: string, rest: string, n: nat)
    requires Clean(key) && '=' !in key && Clean(val) && |key| + |val| < LINE_BUF - 2
    requires n <= |Line(key, val) + rest|
    ensures ReadFrom(t, (Line(key, val) + rest)[..n])
              == if n <= |key| + 1 + |val| then SetCut(t, key, val, n)
                 else ReadFrom(Set(t, key, val), rest[..n - |key| - |val| - 2])
  {
    hide Set, ReadFrom, SetCut;
    var line := Line(key, val);
    assert |line| == |key| + |val| + 2;
    if n <= |key| + 1 + |val| {
      assert (line + rest)[..n] == (key + "=" + val)[..n];
      CutRead(t, key, val, n);
    } else {
      assert (line + rest)[..n] == line + rest[..n - |line|];
      LineRead(t, key, val, rest[..n - |line|]);
    }
  }

  /** How much of the text must reach the file for the two versions to be in it. */
  function VersionsEnd(t: Trial): nat {
    if t.prevDir != "" then |"new="| + |t.newDir| + 1 + |"previous="| + |t.prevDir|
    else if t.newDir != "" then |"new="| + |t.newDir|
    else 0
  }

  /** The versions have no line break in their names, and the text is not cut off before their end. */
  predicate Kept(t: Trial, n: nat) {
    Clean(t.newDir) && Clean(t.prevDir) && n >= VersionsEnd(t)
  }

  /** What is left of a written record of which `n` characters reached the file. */
  function Cut(t: Trial, n: nat): string {
    Render(t)[..Min(n, |Render(t)|)]
  }

  lemma LineSize(key: string, val: string)
    ensures |Line(key, val)| == |key| + |val| + 2
  {
  }

  /** The lines after the two versions leave these alone, and no failed starts stay none. */
  lemma TailCut(t: Trial, attempts: u32, time: string, n: nat)
    requires Clean(time) && |time| < TIME_BUF && t.attempts == 0
    requires n <= |Line("attempts", Digits(attempts)) + Line("time", time)|
    ensures var r := ReadFrom(t, (Line("attempts", Digits(attempts)) + Line("time", time))[..n]);
            && r.newDir == t.newDir && r.prevDir == t.prevDir
            && (attempts == 0 ==> r.attempts == 0)
  {
    hide ReadFrom, Line, StrToUl, Digits, Pow10;
    var digits := Digits(attempts);
    DigitsClean(attempts);
    TenDigits();
    DigitsShort(attempts, 10);
    LineCut(t, "attempts", digits, Line("time", time), n);
    if attempts == 0 {
      ZeroCut(digits);
      assert digits[..|digits|] == digits;
    }
    if n > |"attempts"| + 1 + |digits| {
      var u := Set(t, "attempts", digits);
      var k := n - |"attempts"| - |digits| - 2;
      LineSize("attempts", digits);
      LineSize("time", time);
      assert Line("time", time) == Line("time", time) + "";
      LineCut(u, "time", time, "", k);
      if k > 5 + |time| {
        assert ""[..k - |time| - 6] == "";
        ReadNothing(Set(u, "time", time));
      }
    }
  }

  lemma ZeroCut(digits: string)
    requires digits == Digits(0)
    ensures forall k :: 0 <= k <= |digits| ==> StrToUl(digits[..k]) == 0
  {
    assert digits == "0";
    DigitsRead(0);
    forall k | 0 <= k <= |digits| ensures StrToUl(digits[..k]) == 0 {
      assert digits[..k] == if k == 0 then "" else "0";
    }
  }

  /**
    The two versions read back as they were meant exactly when neither has a line break and the cut
    is at or behind the end of the previous one; then no failed starts read back as none.
   */
  lemma CutRecord(t: Trial, n: nat)
    requires InBuffers(t) && Clean(t.time)
    ensures var r := ReadFrom(EMPTY, Cut(t, n));
            && (r.newDir == t.newDir && r.prevDir == t.prevDir <==> Kept(t, n))
            && (Kept(t, n) && t.attempts == 0 ==> r.attempts == 0)
  {
    hide ReadFrom, Render;
    ReadIsClean(EMPTY, Cut(t, n));
    if Clean(t.newDir) && Clean(t.prevDir) {
      CleanCut(t, Min(n, |Render(t)|));
      VersionsInside(t);
    }
  }

  lemma VersionsInside(t: Trial)
    ensures VersionsEnd(t) <= |Render(t)|
  {
  }

  /** The same for a cut inside a record whose versions have no line breaks, line by line. */
  lemma CleanCut(t: Trial, n: nat)
    requires InBuffers(t) && CleanFields(t) && n <= |Render(t)|
    ensures var r := ReadFrom(EMPTY, Render(t)[..n]);
            && (r.newDir == t.newDir && r.prevDir == t.prevDir <==> n >= VersionsEnd(t))
            && (n >= VersionsEnd(t) && t.attempts == 0 ==> r.attempts == 0)
  {
    hide ReadFrom, Line, StrToUl, Digits;
    var tail := Line("attempts", Digits(t.attempts)) + Line("time", t.time);
    var l2 := Line("previous", t.prevDir);
    LineCut(EMPTY, "new", t.newDir, l2 + tail, n);
    var n2 := n - |t.newDir| - 5;
    if n2 >= 0 {
      var t1 := Set(EMPTY, "new", t.newDir);
      assert n2 <= |l2 + tail| by { LineSize("new", t.newDir); }
      LineCut(t1, "previous", t.prevDir, tail, n2);
      var n3 := n2 - |t.prevDir| - 10;
      if n3 >= 0 {
        assert n3 <= |tail| by { LineSize("previous", t.prevDir); }
        TailCut(Set(t1, "previous", t.prevDir), t.attempts, t.time, n3);
      }
    }
  }

  /** A text cut `k` characters into the previous version names that much of it. */
  lemma CutInPrevious(t: Trial, k: nat)
    requires InBuffers(t) && CleanFields(t) && k <= |t.prevDir|
    ensures ReadFrom(EMPTY, Cut(t, |"new="| + |t.newDir| + 1 + |"previous="| + k))
              == EMPTY.(newDir := t.newDir, prevDir := t.prevDir[..k])
  {
    hide ReadFrom, Line, Digits;
    var tail := Line("attempts", Digits(t.attempts)) + Line("time", t.time);
    var n := 14 + |t.newDir| + k;
    LineSize("new", t.newDir);
    LineSize("previous", t.prevDir);
    LineCut(EMPTY, "new", t.newDir, Line("previous", t.prevDir) + tail, n);
    LineCut(Set(EMPTY, "new", t.newDir), "previous", t.prevDir, tail, 9 + k);
  }

  /** The text on the disk, key by key. */
  lemma RecordText(t: Trial)
    ensures Render(t) == "new=" + t.newDir + "\nprevious=" + t.prevDir + "\nattempts=" + Digits(t.attempts)
                         + "\ntime=" + t.time + "\n"
  {
    hide Digits;
  }
}
