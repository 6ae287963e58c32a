/** The string logic of the headset client (LLMTSup/Assets/Scripts/ServerQuery.cs,
    class PythonCaller): CleanupText, which turns backslash escapes left in an
    answer into the characters they stand for, and the reply branch of
    DiscoverServerAsync, which takes the server's address from a UDP
    discovery reply. */
module ServerQuery {
  import opened Wrappers
  import opened Strings

  /** serverUrl before any discovery */
  const DefaultUrl: string := "http://192.168.0.225:5000/run"

  /** The prefix of a discovery reply */
  const ReplyPrefix: string := "FLASK_SERVER:"

  // ---------------------------------------------------------------------------
  // CleanupText

  /** The four Replace passes, in the order of the source */
  function ReplacePasses(s: string): string
  {
    var afterNewlines := ReplaceAll(s, "\\n", "\n");
    var afterQuotes := ReplaceAll(afterNewlines, "\\\"", "\"");
    var afterBackslashes := ReplaceAll(afterQuotes, "\\\\", "\\");
    ReplaceAll(afterBackslashes, "\\t", "\t")
  }

  /** Replacing a pattern by a text no longer than it never lengthens */
  lemma {:induction false} ReplaceAllShrinks(s: string, pat: string, rep: string)
    requires |pat| > 0 && |rep| <= |pat|
    ensures |ReplaceAll(s, pat, rep)| <= |s|
    decreases |s|
  {
    if |s| > 0 {
      if StartsWith(s, pat) {
        ReplaceAllShrinks(s[|pat|..], pat, rep);
      } else {
        ReplaceAllShrinks(s[1..], pat, rep);
      }
    }
  }

  /** CleanupText: a null (None) or empty text comes back as it is; otherwise
      the four passes run. The result is never longer than the input, and a
      text without a backslash is returned unchanged. */
  function CleanupText(raw: Option<string>): (r: Option<string>)
    ensures r.Some? <==> raw.Some?
    ensures raw.Some? ==> |r.value| <= |raw.value|
    ensures raw.Some? && '\\' !in raw.value ==> r == raw
  {
    if raw.None? || |raw.value| == 0 then raw
    else
      var s := raw.value;
      CleanupShrinks(s);
      if '\\' !in s then
        CleanupNoBackslash(s);
        Some(ReplacePasses(s))
      else
        Some(ReplacePasses(s))
  }

  lemma CleanupShrinks(s: string)
    ensures |ReplacePasses(s)| <= |s|
  {
    var a := ReplaceAll(s, "\\n", "\n");
    var b := ReplaceAll(a, "\\\"", "\"");
    var c := ReplaceAll(b, "\\\\", "\\");
    ReplaceAllShrinks(s, "\\n", "\n");
    ReplaceAllShrinks(a, "\\\"", "\"");
    ReplaceAllShrinks(b, "\\\\", "\\");
    ReplaceAllShrinks(c, "\\t", "\t");
  }

  /** Every pattern starts with a backslash, so a text without one passes
      through all four */
  lemma CleanupNoBackslash(s: string)
    requires '\\' !in s
    ensures ReplacePasses(s) == s
  {
    ReplaceAllAbsent(s, "\\n", "\n");
    ReplaceAllAbsent(s, "\\\"", "\"");
    ReplaceAllAbsent(s, "\\\\", "\\");
    ReplaceAllAbsent(s, "\\t", "\t");
  }

  // ---------------------------------------------------------------------------
  // Backslash escapes decoded in one left-to-right pass

  /** The escape written for one character: backslash, newline, quote and tab
      get a backslash sequence, every other character stands for itself */
  function EscapeChar(c: char): string
  {
    if c == '\\' then "\\\\"
    else if c == '\n' then "\\n"
    else if c == '"' then "\\\""
    else if c == '\t' then "\\t"
    else [c]
  }

  function Escape(s: string): string
  {
    if |s| == 0 then "" else EscapeChar(s[0]) + Escape(s[1..])
  }

  /** Whether the character after a backslash names one of the four escapes */
  predicate IsEscapeCode(c: char)
  {
    c == 'n' || c == '"' || c == '\\' || c == 't'
  }

  function EscapedChar(c: char): char
    requires IsEscapeCode(c)
  {
    if c == 'n' then '\n' else if c == 't' then '\t' else c
  }

  /** The decoding CleanupText is meant to perform: each backslash escape,
      read from the left, becomes its character; anything else is kept */
  function Unescape(s: string): (r: string)
    ensures |r| <= |s|
    ensures '\\' !in s ==> r == s
    decreases |s|
  {
    if |s| == 0 then ""
    else if s[0] == '\\' && |s| >= 2 && IsEscapeCode(s[1]) then
      [EscapedChar(s[1])] + Unescape(s[2..])
    else
      assert '\\' !in s ==> '\\' !in s[1..] by {
        assert forall c :: c in s[1..] ==> c in s;
      }
      [s[0]] + Unescape(s[1..])
  }

  lemma UnescapeStep(c: char, rest: string)
    ensures Unescape(EscapeChar(c) + rest) == [c] + Unescape(rest)
  {
    var t := EscapeChar(c) + rest;
    if c == '\\' || c == '\n' || c == '"' || c == '\t' {
      assert t[0] == '\\' && IsEscapeCode(t[1]) && t[2..] == rest;
    } else {
      assert t[0] == c && t[1..] == rest;
    }
  }

  /** Decoding undoes escaping, for every text */
  lemma {:induction false} UnescapeEscape(s: string)
    ensures Unescape(Escape(s)) == s
    decreases |s|
  {
    if |s| > 0 {
      UnescapeStep(s[0], Escape(s[1..]));
      UnescapeEscape(s[1..]);
      assert [s[0]] + s[1..] == s;
    }
  }

  /** The passes run one after the other, so an escaped backslash followed by
      'n' has its second backslash and the 'n' read as a newline: the escaped
      text of backslash-n comes back as backslash-newline */
  lemma CleanupEscapedBackslashN()
    ensures Escape("\\n") == "\\\\n"
    ensures CleanupText(Some(Escape("\\n"))) == Some("\\\n")
    ensures CleanupText(Some(Escape("\\n"))) != Some("\\n")
    ensures Unescape(Escape("\\n")) == "\\n"
  {
    var s := "\\n";
    assert s[0] == '\\' && s[1] == 'n' && |s| == 2;
    assert Escape(s[1..]) == "n" by {
      assert s[1..] == "n";
      assert Escape("n") == EscapeChar('n') + Escape("");
    }
    var e := Escape(s);
    assert e == "\\\\" + "n";
    assert e == "\\\\n";
    // "\\n" replaces the second and third characters
    var a := ReplaceAll(e, "\\n", "\n");
    assert e[..2] != "\\n" by {
      assert e[1] == '\\';
    }
    assert e[1..][..2] == "\\n";
    assert e[1..][2..] == "";
    assert ReplaceAll(e[1..], "\\n", "\n") == "\n" + ReplaceAll("", "\\n", "\n");
    assert a == [e[0]] + ReplaceAll(e[1..], "\\n", "\n");
    assert a == "\\" + "\n";
    ReplaceAllAbsent("\n", "\\\"", "\"");
    ReplaceAllAbsent("\n", "\\\\", "\\");
    ReplaceAllAbsent("\n", "\\t", "\t");
    var b := ReplaceAll(a, "\\\"", "\"");
    assert a[..2] != "\\\"" && a[1..] == "\n";
    assert b == a;
    var c := ReplaceAll(b, "\\\\", "\\");
    assert b[..2] != "\\\\" && b[1..] == "\n";
    assert c == a;
    var d := ReplaceAll(c, "\\t", "\t");
    assert c[..2] != "\\t" && c[1..] == "\n";
    assert d == a;
    assert ReplacePasses(e) == "\\\n";
    assert "\\\n"[1] != "\\n"[1];
    UnescapeEscape(s);
  }

  // ---------------------------------------------------------------------------
  // The discovery reply

  /** A byte on the wire */
  newtype byte = b: int | 0 <= b < 256

  /** Encoding.ASCII.GetString: bytes above 127 read as '?' */
  function AsciiDecode(bytes: seq<byte>): (s: string)
    ensures |s| == |bytes|
    ensures forall i :: 0 <= i < |bytes| ==> s[i] == if bytes[i] < 128 then (bytes[i] as int) as char else '?'
  {
    seq(|bytes|, i requires 0 <= i < |bytes| => if bytes[i] < 128 then (bytes[i] as int) as char else '?')
  }

  predicate IsAscii(s: string)
  {
    forall i :: 0 <= i < |s| ==> s[i] as int < 128
  }

  /** str.encode('utf-8') of an ASCII text: one byte per character */
  function AsciiEncode(s: string): (bytes: seq<byte>)
    requires IsAscii(s)
    ensures |bytes| == |s|
  {
    seq(|s|, i requires 0 <= i < |s| => s[i] as int as byte)
  }

  lemma AsciiRoundTrip(s: string)
    requires IsAscii(s)
    ensures AsciiDecode(AsciiEncode(s)) == s
  {
    var bytes := AsciiEncode(s);
    assert forall i :: 0 <= i < |s| ==> AsciiDecode(bytes)[i] == s[i];
  }

  /** The reply branch: a reply starting with "FLASK_SERVER:" that splits on
      ':' into at least three pieces gives the URL built from the second and
      third piece; any other reply gives none */
  function ParseReply(response: string): (url: Option<string>)
    ensures url.Some? <==> StartsWith(response, ReplyPrefix) && |Split(response, ':')| >= 3
    ensures url.Some? ==>
      url.value == "http://" + Split(response, ':')[1] + ":" + Split(response, ':')[2] + "/run"
  {
    if StartsWith(response, ReplyPrefix) then
      var parts := Split(response, ':');
      if |parts| >= 3 then Some("http://" + parts[1] + ":" + parts[2] + "/run") else None
    else None
  }

  /** The reply the host sends (LLMGraphConfigurator/llmserverhost.py) */
  function HostReply(ip: string, port: nat): string
  {
    ReplyPrefix + ip + ":" + NatToString(port)
  }

  lemma DigitsHaveNoColon(s: string)
    requires AllDigits(s)
    ensures ':' !in s
  {
    forall i | 0 <= i < |s| ensures s[i] != ':' {
      assert IsDigit(s[i]);
    }
  }

  /** A host with a colon-free address is found at its own address and port */
  lemma HostReplyParses(ip: string, port: nat)
    requires ':' !in ip
    ensures ParseReply(HostReply(ip, port)) == Some("http://" + ip + ":" + NatToString(port) + "/run")
  {
    var p := NatToString(port);
    var head := "FLASK_SERVER";
    assert head[0] == 'F' && head[1] == 'L' && head[2] == 'A' && head[3] == 'S' && head[4] == 'K' && head[5] == '_'
      && head[6] == 'S' && head[7] == 'E' && head[8] == 'R' && head[9] == 'V' && head[10] == 'E' && head[11] == 'R';
    assert ':' !in head;
    DigitsHaveNoColon(p);
    var r := HostReply(ip, port);
    assert r == head + [':'] + (ip + [':'] + p);
    assert StartsWith(r, ReplyPrefix) by {
      assert r[..|ReplyPrefix|] == ReplyPrefix;
    }
    SplitAtSeparator(head, ':', ip + [':'] + p);
    SplitAtSeparator(ip, ':', p);
    SplitNoSeparator(p, ':');
    assert Split(r, ':') == [head, ip, p];
  }

  /** The same through the wire: the host's UTF-8 bytes of an ASCII reply read
      back under ASCII are the reply */
  lemma DiscoveryRoundTrip(ip: string, port: nat)
    requires ':' !in ip && IsAscii(HostReply(ip, port))
    ensures ParseReply(AsciiDecode(AsciiEncode(HostReply(ip, port))))
         == Some("http://" + ip + ":" + NatToString(port) + "/run")
  {
    AsciiRoundTrip(HostReply(ip, port));
    HostReplyParses(ip, port);
  }

  /** A reply with the prefix but no port leaves the URL as it was */
  lemma ReplyWithoutPort(ip: string)
    requires ':' !in ip
    ensures ParseReply(ReplyPrefix + ip) == None
  {
    var head := "FLASK_SERVER";
    assert head[0] == 'F' && head[1] == 'L' && head[2] == 'A' && head[3] == 'S' && head[4] == 'K' && head[5] == '_'
      && head[6] == 'S' && head[7] == 'E' && head[8] == 'R' && head[9] == 'V' && head[10] == 'E' && head[11] == 'R';
    assert ':' !in head;
    assert ReplyPrefix + ip == head + [':'] + ip;
    SplitAtSeparator(head, ':', ip);
    SplitNoSeparator(ip, ':');
  }

  /** The part of PythonCaller that discovery updates */
  class PythonCaller {
    var serverUrl: string
    var serverDiscovered: bool

    constructor ()
      ensures serverUrl == DefaultUrl && !serverDiscovered
    {
      serverUrl := DefaultUrl;
      serverDiscovered := false;
    }

    /** After the broadcast: the reply's bytes, or None when the two-second
        wait ran out. A well-formed reply sets the URL and the flag; anything
        else leaves both. */
    method HandleDiscoveryReply(reply: Option<seq<byte>>)
      modifies this
      ensures reply.Some? && ParseReply(AsciiDecode(reply.value)).Some? ==>
        serverUrl == ParseReply(AsciiDecode(reply.value)).value && serverDiscovered
      ensures !(reply.Some? && ParseReply(AsciiDecode(reply.value)).Some?) ==>
        serverUrl == old(serverUrl) && serverDiscovered == old(serverDiscovered)
    {
      if reply.Some? {
        var response := AsciiDecode(reply.value);
        if StartsWith(response, ReplyPrefix) {
          var parts := Split(response, ':');
          if |parts| >= 3 {
            serverUrl := "http://" + parts[1] + ":" + parts[2] + "/run";
            serverDiscovered := true;
          }
        }
      }
    }
  }

  /** A fresh client that hears the host's reply points at the host */
  method DiscoverHost(ip: string, port: nat) returns (caller: PythonCaller)
    requires ':' !in ip && IsAscii(HostReply(ip, port))
    ensures caller.serverUrl == "http://" + ip + ":" + NatToString(port) + "/run"
    ensures caller.serverDiscovered
  {
    caller := new PythonCaller();
    DiscoveryRoundTrip(ip, port);
    caller.HandleDiscoveryReply(Some(AsciiEncode(HostReply(ip, port))));
  }
}
