/** The plain-text memory files of LLMGraphConfigurator/llmgraphbuilder.py:
    _write_to_memory (187-197) numbers each new entry one past the largest
    number already in the file and appends it; a memory node (364-375) reads
    the entries back as a history. The two regular expressions are modelled
    character by character: findall scans from the left, resumes after each
    match, and tries the next position after a failure. */
module MemoryLog {
  import opened Wrappers
  import opened Strings

  const StartTag: string := "--- START LOG #"
  const EndTag: string := "\n--- END LOG #"

  /** A start marker found at the front of a text: its number and its length */
  datatype Mark = Mark(number: nat, length: nat)

  /** A start marker line found by the history pattern: its digits as written,
      and where the entry's data begins */
  datatype Head = Head(digits: string, dataStart: nat)

  /** One (number, data) pair of the history pattern's findall */
  datatype Log = Log(num: string, data: string)

  /** A match of the history pattern: its pair and its length */
  datatype Found = Found(log: Log, length: nat)

  /** An entry as _write_to_memory writes it */
  datatype Written = Written(number: nat, data: string)

  // ---------------------------------------------------------------------------
  // Scanning

  /** Length of the run of digits at the front of t: what a greedy \d+ takes */
  function DigitPrefix(t: string): (k: nat)
    ensures k <= |t|
    decreases |t|
  {
    if |t| > 0 && IsDigit(t[0]) then 1 + DigitPrefix(t[1..]) else 0
  }

  /** The run is all digits and the character after it is not one */
  lemma {:induction false} DigitPrefixRun(t: string)
    ensures AllDigits(t[..DigitPrefix(t)])
    ensures DigitPrefix(t) < |t| ==> !IsDigit(t[DigitPrefix(t)])
    decreases |t|
  {
    if |t| > 0 && IsDigit(t[0]) {
      DigitPrefixRun(t[1..]);
      assert t[..DigitPrefix(t)] == [t[0]] + t[1..][..DigitPrefix(t[1..])];
    }
  }

  /** A match of `--- START LOG #(\d+) ---` at the front of t: the number
      int() makes of the digits, and the length of the match */
  function StartMatch(t: string): (r: Option<Mark>)
    ensures r.Some? ==> StartsWith(t, StartTag) && |StartTag| < r.value.length <= |t|
  {
    if StartsWith(t, StartTag) then
      var k := |StartTag| + DigitPrefix(t[|StartTag|..]);
      DigitPrefixRun(t[|StartTag|..]);
      assert t[|StartTag|..k] == t[|StartTag|..][..k - |StartTag|];
      if k > |StartTag| && StartsWith(t[k..], " ---") then
        Some(Mark(DigitsValue(t[|StartTag|..k]), k + 4))
      else None
    else None
  }

  /** A start match holds no newline */
  lemma {:induction false} StartMatchHasNoNewline(t: string, i: nat)
    requires StartMatch(t).Some? && i < StartMatch(t).value.length
    ensures t[i] != '\n'
  {
    var L := |StartTag|;
    StartMatchParts(t);
    var k := L + DigitPrefix(t[L..]);
    if i < L {
      assert t[i] == t[..L][i];
    } else if i < k {
      assert t[i] == t[L..k][i - L];
    } else {
      assert t[i] == t[k..][..4][i - k];
    }
  }

  /** [int(n) for n in re.findall(r"--- START LOG #(\d+) ---", t)] */
  function LogNumbers(t: string): seq<nat>
    decreases |t|
  {
    if |t| == 0 then []
    else match StartMatch(t)
      case Some(Mark(n, e)) => [n] + LogNumbers(t[e..])
      case None => LogNumbers(t[1..])
  }

  /** max(xs + [0]) */
  function MaxOrZero(xs: seq<nat>): (m: nat)
    ensures forall i :: 0 <= i < |xs| ==> xs[i] <= m
    ensures m == 0 || m in xs
  {
    if |xs| == 0 then 0
    else
      var r := MaxOrZero(xs[1..]);
      assert forall i :: 1 <= i < |xs| ==> xs[i] == xs[1..][i - 1];
      if xs[0] > r then xs[0] else r
  }

  /** The number _write_to_memory gives the next entry of a file holding t:
      larger than every number in t, and one past the largest of them */
  function NextLogNumber(t: string): (n: nat)
    ensures n >= 1
    ensures forall k :: k in LogNumbers(t) ==> k < n
    ensures n == 1 || n - 1 in LogNumbers(t)
  {
    MaxOrZero(LogNumbers(t)) + 1
  }

  /** The line that opens entry n, without its newline */
  function Header(n: nat): string
  {
    StartTag + NatToString(n) + " ---"
  }

  /** The newline that ends the data, the line that closes entry n, and a blank line */
  function Footer(n: nat): string
  {
    EndTag + NatToString(n) + " ---\n\n"
  }

  /** The text of entry n holding d */
  function Entry(n: nat, d: string): string
  {
    Header(n) + "\n" + d + Footer(n)
  }

  /** _write_to_memory on a file holding t ("" when the file does not exist):
      the file afterwards, with the data d already turned into text by str() */
  function Append(t: string, d: string): (r: string)
  {
    t + Entry(NextLogNumber(t), d)
  }

  /** `--- START LOG #(\d+) ---\n` at the front of t: the digits as written,
      and where the data begins */
  function HistoryHeader(t: string): (r: Option<Head>)
    ensures r.Some? ==> |StartTag| < r.value.dataStart <= |t|
  {
    if StartsWith(t, StartTag) then
      var k := |StartTag| + DigitPrefix(t[|StartTag|..]);
      if k > |StartTag| && StartsWith(t[k..], " ---\n") then Some(Head(t[|StartTag|..k], k + 5)) else None
    else None
  }

  /** `\n--- END LOG #\d+ ---\n\n` at the front of t: the length of the match */
  function EndMatch(t: string): (r: Option<nat>)
    ensures r.Some? ==> StartsWith(t, EndTag) && |EndTag| < r.value <= |t|
  {
    if StartsWith(t, EndTag) then
      var k := |EndTag| + DigitPrefix(t[|EndTag|..]);
      if k > |EndTag| && StartsWith(t[k..], " ---\n\n") then Some(k + 6) else None
    else None
  }

  /** The shortest data the lazy `(.*?)` (any character, re.DOTALL) can take
      before an end marker in t: the index where an end marker first matches */
  function FindEnd(t: string): (r: Option<nat>)
    ensures r.Some? ==> r.value <= |t|
    decreases |t|
  {
    if EndMatch(t).Some? then Some(0)
    else if |t| == 0 then None
    else match FindEnd(t[1..])
      case Some(j) => Some(j + 1)
      case None => None
  }

  /** The history pattern matched at the front of t: the pair it reports and
      the length of the match */
  function LogAt(t: string): (r: Option<Found>)
    ensures r.Some? ==> 0 < r.value.length <= |t|
  {
    LogAfterHead(t, HistoryHeader(t))
  }

  /** The rest of the match once the start line h has matched (or not) */
  function LogAfterHead(t: string, h: Option<Head>): (r: Option<Found>)
    requires h.Some? ==> 0 < h.value.dataStart <= |t|
    ensures r.Some? ==> 0 < r.value.length <= |t|
  {
    match h
    case None => None
    case Some(Head(num, q)) => LogAfterData(t, num, q, FindEnd(t[q..]))
  }

  /** The rest of the match once the data has been found to end j characters
      after q (or not to end at all) */
  function LogAfterData(t: string, num: string, q: nat, f: Option<nat>): (r: Option<Found>)
    requires 0 < q <= |t| && (f.Some? ==> q + f.value <= |t|)
    ensures r.Some? ==> 0 < r.value.length <= |t|
  {
    match f
    case None => None
    case Some(j) =>
      match EndMatch(t[q + j..])
      case None => None
      case Some(e) => Some(Found(Log(num, t[q..q + j]), q + j + e))
  }

  /** re.findall(START (\d+) ---\n (.*?) \n END, t, re.DOTALL): the number as
      written and the data of each entry */
  function Logs(t: string): seq<Log>
    decreases |t|
  {
    if |t| == 0 then []
    else match LogAt(t)
      case Some(f) => [f.log] + Logs(t[f.length..])
      case None => Logs(t[1..])
  }

  /** The text a memory node puts in its data: one "History entry" per log */
  function HistoryText(logs: seq<Log>): string
  {
    if |logs| == 0 then ""
    else "History entry " + logs[0].num + ": " + Strip(logs[0].data) + "\n\n" + HistoryText(logs[1..])
  }

  function History(t: string): string
  {
    HistoryText(Logs(t))
  }

  // ---------------------------------------------------------------------------
  // Facts about the scanners

  lemma {:induction false} NotContainsAnywhere(s: string, p: string, i: nat)
    requires !Contains(s, p) && i <= |s|
    ensures !StartsWith(s[i..], p)
    decreases i
  {
    if i > 0 {
      assert s[1..][i - 1..] == s[i..];
      NotContainsAnywhere(s[1..], p, i - 1);
    }
  }

  lemma {:induction false} NotContainsSuffix(s: string, p: string, i: nat)
    requires !Contains(s, p) && i <= |s|
    ensures !Contains(s[i..], p)
    decreases i
  {
    if i > 0 {
      assert s[1..][i - 1..] == s[i..];
      NotContainsSuffix(s[1..], p, i - 1);
    }
  }

  /** A string lacking one of p's characters does not contain p */
  lemma {:induction false} NotContainsMissingChar(s: string, p: string, k: nat)
    requires k < |p| && p[k] !in s
    ensures !Contains(s, p)
    decreases |s|
  {
    if |s| > 0 {
      assert forall c :: c in s[1..] ==> c in s;
      NotContainsMissingChar(s[1..], p, k);
    }
  }

  lemma {:induction false} DigitPrefixOfDigits(a: string, b: string)
    requires AllDigits(a) && |b| > 0 && !IsDigit(b[0])
    ensures DigitPrefix(a + b) == |a|
    decreases |a|
  {
    if |a| > 0 {
      assert (a + b)[1..] == a[1..] + b;
      DigitPrefixOfDigits(a[1..], b);
    } else {
      assert a + b == b;
    }
  }

  /** The digit run is decided by the characters up to the one that ends it */
  lemma {:induction false} DigitPrefixDetermined(a: string, b: string, m: nat)
    requires m <= |a| && m <= |b| && a[..m] == b[..m] && DigitPrefix(a) < m
    ensures DigitPrefix(b) == DigitPrefix(a)
    decreases m
  {
    assert a[0] == a[..m][0] && b[0] == b[..m][0];
    if IsDigit(a[0]) {
      assert a[1..][..m - 1] == a[..m][1..];
      assert b[1..][..m - 1] == b[..m][1..];
      DigitPrefixDetermined(a[1..], b[1..], m - 1);
    }
  }

  /** The parts a start match consists of */
  lemma {:induction false} StartMatchParts(t: string)
    requires StartMatch(t).Some?
    ensures var k := |StartTag| + DigitPrefix(t[|StartTag|..]);
      && StartsWith(t, StartTag) && |StartTag| < k && k + 4 <= |t| && StartsWith(t[k..], " ---")
      && AllDigits(t[|StartTag|..k])
      && StartMatch(t).value == Mark(DigitsValue(t[|StartTag|..k]), k + 4)
  {
    var L := |StartTag|;
    DigitPrefixRun(t[L..]);
    assert t[L..L + DigitPrefix(t[L..])] == t[L..][..DigitPrefix(t[L..])];
  }

  lemma {:induction false} StartMatchFromParts(t: string, k: nat)
    requires StartsWith(t, StartTag) && k == |StartTag| + DigitPrefix(t[|StartTag|..])
    requires |StartTag| < k && StartsWith(t[k..], " ---") && AllDigits(t[|StartTag|..k])
    ensures StartMatch(t) == Some(Mark(DigitsValue(t[|StartTag|..k]), k + 4))
  {
  }

  /** A start match is decided by the characters it covers */
  lemma {:induction false} StartMatchDetermined(t: string, u: string)
    requires StartMatch(t).Some?
    requires StartMatch(t).value.length <= |u| && t[..StartMatch(t).value.length] == u[..StartMatch(t).value.length]
    ensures StartMatch(u) == StartMatch(t)
  {
    var e := StartMatch(t).value.length;
    var L := |StartTag|;
    StartMatchParts(t);
    var k := L + DigitPrefix(t[L..]);
    assert u[..L] == t[..e][..L];
    assert t[L..][..e - L] == t[..e][L..];
    assert u[L..][..e - L] == u[..e][L..];
    DigitPrefixDetermined(t[L..], u[L..], e - L);
    assert u[k..][..4] == u[..e][k..] == t[..e][k..] == t[k..][..4];
    assert u[L..k] == u[..e][L..k] == t[..e][L..k] == t[L..k];
    StartMatchFromParts(u, k);
  }

  lemma {:induction false} StartMatchInside(x: string, y: string)
    requires |x| > 0 && (x[|x| - 1] == '\n' || (|y| > 0 && y[0] == '\n'))
    requires StartMatch(x + y).Some?
    ensures StartMatch(x + y).value.length <= |x|
  {
    var t := x + y;
    var e := StartMatch(t).value.length;
    var b := if x[|x| - 1] == '\n' then |x| - 1 else |x|;
    if b < e {
      StartMatchHasNoNewline(t, b);
    }
  }

  /** Start markers never straddle a newline, so counting them splits at one */
  lemma {:induction false} LogNumbersSplit(x: string, y: string)
    requires |x| == 0 || x[|x| - 1] == '\n' || (|y| > 0 && y[0] == '\n')
    ensures LogNumbers(x + y) == LogNumbers(x) + LogNumbers(y)
    decreases |x|
  {
    var t := x + y;
    if |x| == 0 {
      assert t == y;
    } else {
      match StartMatch(t)
      case Some(Mark(n, e)) =>
        StartMatchInside(x, y);
        assert t[..e] == x[..e];
        StartMatchDetermined(t, x);
        assert t[e..] == x[e..] + y;
        LogNumbersSplit(x[e..], y);
      case None =>
        if StartMatch(x).Some? {
          var e := StartMatch(x).value.length;
          assert x[..e] == t[..e];
          StartMatchDetermined(x, t);
        }
        assert t[1..] == x[1..] + y;
        LogNumbersSplit(x[1..], y);
    }
  }

  lemma {:induction false} LogNumbersWithoutStart(s: string)
    requires !Contains(s, StartTag)
    ensures LogNumbers(s) == []
    decreases |s|
  {
    if |s| > 0 {
      NotContainsSuffix(s, StartTag, 1);
      LogNumbersWithoutStart(s[1..]);
    }
  }

  lemma {:induction false} DigitsHaveNoS(s: string)
    requires AllDigits(s)
    ensures 'S' !in s
  {
  }

  lemma {:induction false} StartMatchOfHeader(num: string, rest: string)
    requires |num| > 0 && AllDigits(num) && StartsWith(rest, " ---")
    ensures StartMatch(StartTag + num + rest) == Some(Mark(DigitsValue(num), |StartTag| + |num| + 4))
  {
    var t := StartTag + num + rest;
    var L := |StartTag|;
    assert t[..L] == StartTag;
    assert t[L..] == num + rest;
    DigitPrefixOfDigits(num, rest);
    var k := L + |num|;
    assert t[k..] == rest;
    assert t[L..k] == num;
  }

  lemma {:induction false} HistoryHeaderOf(num: string, rest: string)
    requires |num| > 0 && AllDigits(num) && StartsWith(rest, " ---\n")
    ensures HistoryHeader(StartTag + num + rest) == Some(Head(num, |StartTag| + |num| + 5))
  {
    var t := StartTag + num + rest;
    var L := |StartTag|;
    assert t[..L] == StartTag;
    assert t[L..] == num + rest;
    DigitPrefixOfDigits(num, rest);
    var k := L + |num|;
    assert t[k..] == rest;
    assert t[L..k] == num;
  }

  lemma {:induction false} EndMatchOf(num: string, rest: string)
    requires |num| > 0 && AllDigits(num) && StartsWith(rest, " ---\n\n")
    ensures EndMatch(EndTag + num + rest) == Some(|EndTag| + |num| + 6)
  {
    var t := EndTag + num + rest;
    var L := |EndTag|;
    assert t[..L] == EndTag;
    assert t[L..] == num + rest;
    DigitPrefixOfDigits(num, rest);
    assert t[L + |num|..] == rest;
  }

  lemma {:induction false} StartsWithFirst(x: string, p: string)
    requires |p| > 0 && StartsWith(x, p)
    ensures x[0] == p[0]
  {
    assert x[..|p|][0] == x[0];
  }

  lemma {:induction false} LogNumbersAfterNewline(s: string)
    ensures LogNumbers("\n" + s) == LogNumbers(s)
  {
    if StartsWith("\n" + s, StartTag) {
      StartsWithFirst("\n" + s, StartTag);
    }
    assert ("\n" + s)[1..] == s;
  }

  lemma {:induction false} LogNumbersOfHeader(num: string, s: string)
    requires |num| > 0 && AllDigits(num)
    ensures LogNumbers(StartTag + num + (" ---" + ("\n" + s))) == [DigitsValue(num)] + LogNumbers(s)
  {
    var t := StartTag + num + (" ---" + ("\n" + s));
    StartMatchOfHeader(num, " ---" + ("\n" + s));
    assert t[|StartTag| + |num| + 4..] == "\n" + s;
    LogNumbersAfterNewline(s);
  }

  lemma {:induction false} EntryShape(n: nat, d: string, rest: string)
    ensures Entry(n, d) + rest == StartTag + NatToString(n) + (" ---" + ("\n" + (d + (Footer(n) + rest))))
    ensures Footer(n) + rest == EndTag + NatToString(n) + (" ---\n\n" + rest)
  {
  }

  lemma {:induction false} FooterHasNoStart(n: nat)
    ensures LogNumbers(Footer(n)) == []
  {
    var f := Footer(n);
    var num := NatToString(n);
    assert 'S' !in f by {
      assert forall c :: c in f ==> c in EndTag || c in num || c in " ---\n\n";
      DigitsHaveNoS(num);
    }
    assert StartTag[4] == 'S';
    NotContainsMissingChar(f, StartTag, 4);
    LogNumbersWithoutStart(f);
  }

  /** The numbers in an entry: its own, then any that its data happens to contain */
  lemma {:induction false} LogNumbersOfEntry(n: nat, d: string)
    ensures LogNumbers(Entry(n, d)) == [n] + LogNumbers(d)
  {
    var num := NatToString(n);
    EntryForm(n, d);
    LogNumbersOfHeader(num, d + Footer(n));
    DigitsValueOfNatToString(n);
    DataNumbers(n, d);
  }

  lemma {:induction false} EntryForm(n: nat, d: string)
    ensures Entry(n, d) == StartTag + NatToString(n) + (" ---" + ("\n" + (d + Footer(n))))
  {
  }

  /** The end line of an entry adds no number to those of its data */
  lemma {:induction false} DataNumbers(n: nat, d: string)
    ensures LogNumbers(d + Footer(n)) == LogNumbers(d)
  {
    LogNumbersSplit(d, Footer(n));
    FooterHasNoStart(n);
    assert LogNumbers(d) + [] == LogNumbers(d);
  }

  // ---------------------------------------------------------------------------
  // Writing: numbering

  /** A file that only _write_to_memory and clear_memory have written is empty
      or ends with a newline */
  predicate Ended(t: string)
  {
    |t| == 0 || t[|t| - 1] == '\n'
  }

  /** Appending keeps the old text as it is, adds one entry numbered one past
      every number it held, and leaves the file ended */
  lemma {:induction false} AppendShape(t: string, d: string)
    ensures Append(t, d)[..|t|] == t
    ensures Append(t, d)[|t|..] == Entry(NextLogNumber(t), d)
    ensures Ended(Append(t, d))
  {
    var e := Entry(NextLogNumber(t), d);
    EntryEnded(NextLogNumber(t), d);
    assert Append(t, d) == t + e;
    assert (t + e)[|t + e| - 1] == e[|e| - 1];
  }

  /** The numbers in an ended file after an append: the old ones, the new
      entry's, and any that the data itself holds */
  lemma {:induction false} AppendNumbers(t: string, d: string)
    requires Ended(t)
    ensures LogNumbers(Append(t, d)) == LogNumbers(t) + ([NextLogNumber(t)] + LogNumbers(d))
  {
    EntryNumbersAfter(t, NextLogNumber(t), d);
  }

  lemma {:induction false} EntryNumbersAfter(t: string, n: nat, d: string)
    requires Ended(t)
    ensures LogNumbers(t + Entry(n, d)) == LogNumbers(t) + ([n] + LogNumbers(d))
  {
    LogNumbersOfEntry(n, d);
    LogNumbersAfter(t, Entry(n, d), [n] + LogNumbers(d));
  }

  lemma {:induction false} LogNumbersAfter(t: string, e: string, ns: seq<nat>)
    requires Ended(t) && LogNumbers(e) == ns
    ensures LogNumbers(t + e) == LogNumbers(t) + ns
  {
    LogNumbersSplit(t, e);
  }

  lemma {:induction false} EntryEnded(n: nat, d: string)
    ensures Ended(Entry(n, d))
  {
    var f := Footer(n);
    assert f[|f| - 1] == '\n';
    assert Entry(n, d) == (Header(n) + "\n" + d) + f;
  }

  lemma {:induction false} MaxOrZeroSnoc(xs: seq<nat>, m: nat)
    requires forall x :: x in xs ==> x < m
    ensures MaxOrZero(xs + [m]) == m
  {
    assert (xs + [m])[|xs|] == m;
    assert forall x :: x in xs + [m] ==> x <= m;
  }

  /** Data without a start marker moves the numbering on by exactly one */
  lemma {:induction false} NextAfterAppend(t: string, d: string)
    requires Ended(t) && !Contains(d, StartTag)
    ensures NextLogNumber(Append(t, d)) == NextLogNumber(t) + 1
  {
    AppendCleanNumbers(t, d);
    MaxOrZeroSnoc(LogNumbers(t), NextLogNumber(t));
  }

  /** Appending data without a start marker adds exactly the new entry's number */
  lemma {:induction false} AppendCleanNumbers(t: string, d: string)
    requires Ended(t) && !Contains(d, StartTag)
    ensures LogNumbers(Append(t, d)) == LogNumbers(t) + [NextLogNumber(t)]
  {
    AppendNumbers(t, d);
    LogNumbersWithoutStart(d);
    SnocEmpty(LogNumbers(t), NextLogNumber(t), LogNumbers(d));
  }

  lemma {:induction false} SnocEmpty(ns: seq<nat>, n: nat, ms: seq<nat>)
    requires ms == []
    ensures ns + ([n] + ms) == ns + [n]
  {
    assert [n] + ms == [n];
  }

  /** The file after writing each of ds in turn to a missing or cleared file */
  function Logged(ds: seq<string>): string
  {
    if |ds| == 0 then "" else Append(Logged(ds[..|ds| - 1]), ds[|ds| - 1])
  }

  /** The numbers 1, 2, 3, ... in order */
  predicate CountsUp(ns: seq<nat>)
  {
    forall i :: 0 <= i < |ns| ==> ns[i] == i + 1
  }

  lemma {:induction false} CountsUpSnoc(ns: seq<nat>)
    requires CountsUp(ns)
    ensures CountsUp(ns + [|ns| + 1])
  {
  }

  /** t is ended and holds exactly the entry numbers 1 .. k, so the next
      entry gets k + 1 */
  predicate NumberedUpTo(t: string, k: nat)
  {
    && Ended(t)
    && |LogNumbers(t)| == k && CountsUp(LogNumbers(t))
    && NextLogNumber(t) == k + 1
  }

  /** Appending data without a start marker to such a file numbers it one further */
  lemma {:induction false} AppendCountsUp(t: string, k: nat, d: string)
    requires NumberedUpTo(t, k) && !Contains(d, StartTag)
    ensures NumberedUpTo(Append(t, d), k + 1)
  {
    AppendShape(t, d);
    AppendCleanNumbers(t, d);
    NextAfterAppend(t, d);
    CountsUpSnoc(LogNumbers(t));
  }

  /** Entries written to a fresh or cleared file are numbered 1, 2, 3, ... */
  lemma {:induction false} LoggedNumbers(ds: seq<string>)
    requires forall i :: 0 <= i < |ds| ==> !Contains(ds[i], StartTag)
    ensures NumberedUpTo(Logged(ds), |ds|)
  {
    if |ds| > 0 {
      var init := ds[..|ds| - 1];
      LoggedNumbers(init);
      AppendCountsUp(Logged(init), |init|, ds[|ds| - 1]);
    }
  }

  // ---------------------------------------------------------------------------
  // Reading back

  /** The entries of a log, from the first */
  function Render(es: seq<Written>): string
  {
    if |es| == 0 then "" else Entry(es[0].number, es[0].data) + Render(es[1..])
  }

  lemma {:induction false} RenderSnoc(es: seq<Written>, e: Written)
    ensures Render(es + [e]) == Render(es) + Entry(e.number, e.data)
  {
    if |es| == 0 {
      assert es + [e] == [e];
    } else {
      assert (es + [e])[1..] == es[1..] + [e];
      RenderSnoc(es[1..], e);
    }
  }

  /** No end marker begins inside data that contains none and is followed by a
      newline: such a marker would have to reach that newline, and the marker
      holds a newline only as its first character */
  lemma {:induction false} EndTagNotInside(d: string, w: string, i: nat)
    requires !Contains(d, EndTag) && i < |d| && |w| > 0 && w[0] == '\n'
    ensures !StartsWith((d + w)[i..], EndTag)
  {
    var u := d[i..];
    assert (d + w)[i..] == u + w;
    NotContainsAnywhere(d, EndTag, i);
    if |u| < |EndTag| {
      assert EndTag[|u|] != '\n';
      assert (u + w)[|u|] == '\n';
    } else {
      assert (u + w)[..|EndTag|] == u[..|EndTag|];
    }
  }

  /** Skipping text in which no end marker begins moves the lazy match along */
  lemma {:induction false} FindEndSkip(v: string, w: string)
    requires forall i :: 0 <= i < |v| ==> !StartsWith((v + w)[i..], EndTag)
    requires FindEnd(w).Some?
    ensures FindEnd(v + w) == Some(FindEnd(w).value + |v|)
    decreases |v|
  {
    if |v| == 0 {
      assert v + w == w;
    } else {
      NoEndTagInTail(v, w);
      FindEndSkip(v[1..], w);
      FindEndStep(v, w);
    }
  }

  lemma {:induction false} NoEndTagInTail(v: string, w: string)
    requires |v| > 0
    requires forall i :: 0 <= i < |v| ==> !StartsWith((v + w)[i..], EndTag)
    ensures !StartsWith(v + w, EndTag)
    ensures forall i :: 0 <= i < |v[1..]| ==> !StartsWith((v[1..] + w)[i..], EndTag)
  {
    var t := v + w;
    assert t[0..] == t;
    forall i | 0 <= i < |v| - 1 ensures !StartsWith((v[1..] + w)[i..], EndTag) {
      assert (v[1..] + w)[i..] == t[i + 1..];
    }
  }

  lemma {:induction false} FindEndStep(v: string, w: string)
    requires |v| > 0 && !StartsWith(v + w, EndTag) && FindEnd(v[1..] + w).Some?
    ensures FindEnd(v + w) == Some(FindEnd(v[1..] + w).value + 1)
  {
    assert (v + w)[1..] == v[1..] + w;
  }

  /** The data of an entry whose data holds no end marker runs exactly to its footer */
  lemma {:induction false} DataEndsAtFooter(n: nat, d: string, rest: string)
    requires !Contains(d, EndTag)
    ensures FindEnd(d + (Footer(n) + rest)) == Some(|d|)
    ensures EndMatch(Footer(n) + rest) == Some(|Footer(n)|)
  {
    var w := Footer(n) + rest;
    EntryShape(n, d, rest);
    EndMatchOf(NatToString(n), " ---\n\n" + rest);
    assert FindEnd(w) == Some(0);
    forall i | 0 <= i < |d| ensures !StartsWith((d + w)[i..], EndTag) {
      EndTagNotInside(d, w, i);
    }
    FindEndSkip(d, w);
  }

  lemma {:induction false} LogAfterDataAt(t: string, num: string, q: nat, d: string, e: nat)
    requires 0 < q && q + |d| <= |t| && t[q..q + |d|] == d && EndMatch(t[q + |d|..]) == Some(e)
    ensures LogAfterData(t, num, q, Some(|d|)) == Some(Found(Log(num, d), q + |d| + e))
  {
  }

  lemma {:induction false} LogAfterHeadAt(t: string, num: string, q: nat, d: string, w: string, e: nat)
    requires 0 < q && q + |d| <= |t| && t[q..] == d + w && t[q + |d|..] == w && t[q..q + |d|] == d
    requires FindEnd(d + w) == Some(|d|) && EndMatch(w) == Some(e)
    ensures LogAfterHead(t, Some(Head(num, q))) == Some(Found(Log(num, d), q + |d| + e))
  {
    LogAfterDataAt(t, num, q, d, e);
  }

  lemma {:induction false} LogAtHead(t: string, num: string, q: nat, r: Option<Found>)
    requires HistoryHeader(t) == Some(Head(num, q)) && LogAfterHead(t, Some(Head(num, q))) == r
    ensures LogAt(t) == r
  {
  }

  lemma {:induction false} LogsStep(t: string, log: Log, len: nat, rest: string)
    requires |t| > 0 && LogAt(t) == Some(Found(log, len)) && len <= |t| && t[len..] == rest
    ensures Logs(t) == [log] + Logs(rest)
  {
  }

  /** t holds d from q on, then f, then rest */
  predicate Sliced(t: string, q: nat, d: string, f: string, rest: string)
  {
    && q + |d| + |f| <= |t|
    && t[q..] == d + (f + rest)
    && t[q + |d|..] == f + rest
    && t[q..q + |d|] == d
    && t[q + |d| + |f|..] == rest
  }

  /** Where the parts of an entry sit in the text */
  lemma {:induction false} EntrySlices(n: nat, d: string, rest: string)
    ensures Sliced(Entry(n, d) + rest, |StartTag| + |NatToString(n)| + 5, d, Footer(n), rest)
  {
    var p := Header(n) + "\n";
    Regroup(p, d, Footer(n), rest);
    SlicesOf(Entry(n, d) + rest, p, d, Footer(n), rest, |StartTag| + |NatToString(n)| + 5);
  }

  lemma {:induction false} Regroup(a: string, b: string, c: string, e: string)
    ensures ((a + b) + c) + e == a + (b + (c + e))
    ensures |(a + b) + c| == |a| + |b| + |c|
  {
  }

  /** The slices of t = p + d + f + rest */
  lemma {:induction false} SlicesOf(t: string, p: string, d: string, f: string, rest: string, q: nat)
    requires t == p + (d + (f + rest)) && q == |p|
    ensures Sliced(t, q, d, f, rest)
  {
    var y := f + rest;
    var x := d + y;
    DropFront(p, x);
    DropFront(d, y);
    DropFront(f, rest);
    assert t[q + |d|..] == t[q..][|d|..];
    assert t[q + |d| + |f|..] == t[q + |d|..][|f|..];
    assert t[q..q + |d|] == x[..|d|];
  }

  lemma {:induction false} DropFront(a: string, b: string)
    ensures (a + b)[|a|..] == b && (a + b)[..|a|] == a
  {
  }

  lemma {:induction false} LogAtParts(t: string, num: string, q: nat, d: string, w: string, e: nat, len: nat)
    requires HistoryHeader(t) == Some(Head(num, q)) && 0 < q && q + |d| <= |t|
    requires t[q..] == d + w && t[q + |d|..] == w && t[q..q + |d|] == d
    requires FindEnd(d + w) == Some(|d|) && EndMatch(w) == Some(e) && len == q + |d| + e
    ensures LogAt(t) == Some(Found(Log(num, d), len))
  {
    LogAfterHeadAt(t, num, q, d, w, e);
    LogAtHead(t, num, q, Some(Found(Log(num, d), q + |d| + e)));
  }

  lemma {:induction false} EntryHeader(n: nat, d: string, rest: string)
    ensures HistoryHeader(Entry(n, d) + rest) == Some(Head(NatToString(n), |StartTag| + |NatToString(n)| + 5))
  {
    var x := d + (Footer(n) + rest);
    EntryShape(n, d, rest);
    HeaderLineStarts(x);
    HistoryHeaderOf(NatToString(n), " ---" + ("\n" + x));
  }

  lemma {:induction false} HeaderLineStarts(x: string)
    ensures StartsWith(" ---" + ("\n" + x), " ---\n")
  {
    assert (" ---" + ("\n" + x))[..5] == " ---\n";
  }

  /** The history pattern matches at the front of t: the start line gives
      the digits num and ends at q, then come the data d, the end line f and
      the rest of the text */
  predicate MatchedAt(t: string, num: string, q: nat, d: string, f: string, rest: string)
  {
    && HistoryHeader(t) == Some(Head(num, q)) && 0 < q && Sliced(t, q, d, f, rest)
    && FindEnd(d + (f + rest)) == Some(|d|) && EndMatch(f + rest) == Some(|f|)
  }

  /** One step of the history scan at such a match */
  lemma {:induction false} LogsAtMatch(t: string, num: string, q: nat, d: string, f: string, rest: string)
    requires MatchedAt(t, num, q, d, f, rest)
    ensures Logs(t) == [Log(num, d)] + Logs(rest)
  {
    var len := q + |d| + |f|;
    LogAtParts(t, num, q, d, f + rest, |f|, len);
    LogsStep(t, Log(num, d), len, rest);
  }

  /** How the history pattern sees an entry whose data holds no end marker */
  lemma {:induction false} EntryMatched(n: nat, d: string, rest: string)
    requires !Contains(d, EndTag)
    ensures MatchedAt(Entry(n, d) + rest, NatToString(n), |StartTag| + |NatToString(n)| + 5, d, Footer(n), rest)
  {
    EntryHeader(n, d, rest);
    DataEndsAtFooter(n, d, rest);
    EntrySlices(n, d, rest);
  }

  /** Reading an entry whose data holds no end marker gives its number and data
      back and resumes right after it */
  lemma {:induction false} LogsOfEntry(n: nat, d: string, rest: string)
    requires !Contains(d, EndTag)
    ensures Logs(Entry(n, d) + rest) == [Log(NatToString(n), d)] + Logs(rest)
  {
    EntryMatched(n, d, rest);
    LogsAtMatch(Entry(n, d) + rest, NatToString(n), |StartTag| + |NatToString(n)| + 5, d, Footer(n), rest);
  }

  /** The (number, data) pairs as the history pattern reports them */
  function Reported(es: seq<Written>): (logs: seq<Log>)
    ensures |logs| == |es|
    ensures forall i :: 0 <= i < |es| ==> logs[i] == Log(NatToString(es[i].number), es[i].data)
  {
    if |es| == 0 then [] else [Log(NatToString(es[0].number), es[0].data)] + Reported(es[1..])
  }

  lemma {:induction false} LogsOfRender(es: seq<Written>, rest: string)
    requires forall i :: 0 <= i < |es| ==> !Contains(es[i].data, EndTag)
    ensures Logs(Render(es) + rest) == Reported(es) + Logs(rest)
  {
    if |es| > 0 {
      var r := Render(es[1..]) + rest;
      LogsOfRender(es[1..], rest);
      Regroup2(Entry(es[0].number, es[0].data), Render(es[1..]), rest);
      LogsOfEntry(es[0].number, es[0].data, r);
      RegroupLogs([Log(NatToString(es[0].number), es[0].data)], Reported(es[1..]), Logs(rest));
    } else {
      EmptyConcat(rest);
    }
  }

  lemma {:induction false} Regroup2(a: string, b: string, c: string)
    ensures (a + b) + c == a + (b + c)
  {
  }

  lemma {:induction false} RegroupLogs(a: seq<Log>, b: seq<Log>, c: seq<Log>)
    ensures (a + b) + c == a + (b + c)
  {
  }

  lemma {:induction false} EmptyConcat(s: string)
    ensures "" + s == s && s + "" == s
  {
  }

  /** The entries Logged(ds) holds: ds numbered from 1 */
  function Numbered(ds: seq<string>): (es: seq<Written>)
    ensures |es| == |ds|
    ensures forall i :: 0 <= i < |ds| ==> es[i] == Written(i + 1, ds[i])
  {
    if |ds| == 0 then [] else Numbered(ds[..|ds| - 1]) + [Written(|ds|, ds[|ds| - 1])]
  }

  lemma {:induction false} LoggedIsRendered(ds: seq<string>)
    requires forall i :: 0 <= i < |ds| ==> !Contains(ds[i], StartTag)
    ensures Logged(ds) == Render(Numbered(ds))
  {
    if |ds| > 0 {
      var init := ds[..|ds| - 1];
      LoggedIsRendered(init);
      LoggedNumbers(init);
      RenderSnoc(Numbered(init), Written(|ds|, ds[|ds| - 1]));
    }
  }

  /** A memory node reading a file that was cleared and then written with ds,
      none holding a marker, sees every entry, numbered from 1, with its data */
  lemma {:induction false} LogsOfLogged(ds: seq<string>)
    requires forall i :: 0 <= i < |ds| ==> !Contains(ds[i], StartTag) && !Contains(ds[i], EndTag)
    ensures |Logs(Logged(ds))| == |ds|
    ensures forall i :: 0 <= i < |ds| ==> Logs(Logged(ds))[i] == Log(NatToString(i + 1), ds[i])
  {
    LoggedIsRendered(ds);
    LogsOfRender(Numbered(ds), "");
    assert Render(Numbered(ds)) + "" == Render(Numbered(ds));
  }

  /** A single written entry reads back as "History entry n: " and its stripped data */
  lemma {:induction false} HistoryOfEntry(n: nat, d: string)
    requires !Contains(d, EndTag)
    ensures History(Entry(n, d)) == "History entry " + NatToString(n) + ": " + Strip(d) + "\n\n"
  {
    EmptyConcat(Entry(n, d));
    LogsOfEntry(n, d, "");
    HistoryTextSingle(Log(NatToString(n), d));
  }

  lemma {:induction false} HistoryTextSingle(l: Log)
    ensures HistoryText([l]) == "History entry " + l.num + ": " + Strip(l.data) + "\n\n"
  {
    assert [l][1..] == [];
  }
}
