/** The presence query of PnPDeviceChangeWatcher: the watched device ID is escaped
    and placed in a WQL string literal, and the device counts as present when the
    query matches exactly one Win32_PnPEntity record. */
module Wql {
  import opened Wrappers
  import opened Text

  /** The escaping chain of IsDevicePresent: first every backslash is doubled,
      then every quote is prefixed with a backslash. */
  function EscapeDeviceId(id: string): string
  {
    ReplaceChar(ReplaceChar(id, '\\', "\\\\"), '"', "\\\"")
  }

  /** Reference definition: every character escaped on its own, in one pass. */
  function EscapeChar(c: char): string
  {
    if c == '\\' then "\\\\" else if c == '"' then "\\\"" else [c]
  }

  function EscapeEach(id: string): string
    decreases |id|
  {
    if id == [] then [] else EscapeChar(id[0]) + EscapeEach(id[1..])
  }

  /** Because backslashes are doubled before quotes are escaped, the backslash put
      in front of a quote is not doubled again: the chain equals the one-pass escape. */
  lemma {:induction false} EscapeDeviceIdIsOnePass(id: string)
    ensures EscapeDeviceId(id) == EscapeEach(id)
  {
    if id != [] {
      var c := id[0];
      var once := if c == '\\' then "\\\\" else [c];
      assert ReplaceChar(id, '\\', "\\\\") == once + ReplaceChar(id[1..], '\\', "\\\\");
      ReplaceCharAppend(once, ReplaceChar(id[1..], '\\', "\\\\"), '"', "\\\"");
      if c == '\\' {
        ReplaceCharAbsent(once, '"', "\\\"");
      } else if c == '"' {
        assert ReplaceChar(once, '"', "\\\"") == "\\\"" + ReplaceChar([], '"', "\\\"");
      } else {
        assert ReplaceChar(once, '"', "\\\"") == [c] + ReplaceChar([], '"', "\\\"");
      }
      assert ReplaceChar(once, '"', "\\\"") == EscapeChar(c);
      EscapeDeviceIdIsOnePass(id[1..]);
    }
  }

  /** Reads the body of a WQL string literal, after its opening quote: a backslash
      takes the next character literally and an unescaped quote closes the literal.
      Gives the value and the text after the closing quote; None if unterminated. */
  function ReadLiteral(s: string): (r: Option<(string, string)>)
    decreases |s|
  {
    if s == [] then None
    else if s[0] == '"' then Some(("", s[1..]))
    else if s[0] == '\\' then
      if |s| < 2 then None
      else match ReadLiteral(s[2..])
        case None => None
        case Some((value, rest)) => Some(([s[1]] + value, rest))
    else match ReadLiteral(s[1..])
      case None => None
      case Some((value, rest)) => Some(([s[0]] + value, rest))
  }

  /** One escaped character in front of a literal's remainder reads as that character. */
  lemma ReadEscapeChar(c: char, tail: string, value: string, rest: string)
    requires ReadLiteral(tail) == Some((value, rest))
    ensures ReadLiteral(EscapeChar(c) + tail) == Some(([c] + value, rest))
  {
    var s := EscapeChar(c) + tail;
    if c == '\\' || c == '"' {
      assert s[0] == '\\' && s[1] == c && s[2..] == tail;
    } else {
      assert s[0] == c && s[1..] == tail;
    }
  }

  lemma {:induction false} ReadEscapeEach(id: string, rest: string)
    ensures ReadLiteral(EscapeEach(id) + "\"" + rest) == Some((id, rest))
    decreases |id|
  {
    if id == [] {
      assert EscapeEach(id) + "\"" + rest == "\"" + rest;
    } else {
      var tail := EscapeEach(id[1..]) + "\"" + rest;
      ReadEscapeEach(id[1..], rest);
      assert EscapeEach(id) + "\"" + rest == EscapeChar(id[0]) + tail;
      ReadEscapeChar(id[0], tail, id[1..], rest);
      assert [id[0]] + id[1..] == id;
    }
  }

  /** The escaped device ID, closed by a quote, reads back as exactly that device ID,
      whatever follows: no character of the ID can end the literal early. */
  lemma EscapedDeviceIdReadsBack(id: string, rest: string)
    ensures ReadLiteral(EscapeDeviceId(id) + "\"" + rest) == Some((id, rest))
  {
    EscapeDeviceIdIsOnePass(id);
    ReadEscapeEach(id, rest);
  }

  const QueryHead := "Select * From Win32_PnPEntity where DeviceID = \""

  /** The WQL query IsDevicePresent issues for a device ID. */
  function PresenceQuery(id: string): string
  {
    QueryHead + EscapeDeviceId(id) + "\""
  }

  /** The query's string literal names exactly the watched device and closes the query. */
  lemma PresenceQueryNamesDevice(id: string)
    ensures |PresenceQuery(id)| > |QueryHead|
    ensures PresenceQuery(id)[..|QueryHead|] == QueryHead
    ensures ReadLiteral(PresenceQuery(id)[|QueryHead|..]) == Some((id, ""))
  {
    EscapedDeviceIdReadsBack(id, "");
    assert PresenceQuery(id)[|QueryHead|..] == EscapeDeviceId(id) + "\"" + "";
  }

  /** IsDevicePresent over a WMI engine `wmi` that maps a query to the number of
      records it matches, or to None when the query throws. A null device ID makes
      the escaping throw before any query is issued. */
  function IsDevicePresent(deviceId: Option<string>, wmi: string -> Option<nat>): (present: Option<bool>)
    ensures present.None? <==> deviceId.None? || wmi(PresenceQuery(deviceId.value)).None?
    ensures present == Some(true) <==> deviceId.Some? && wmi(PresenceQuery(deviceId.value)) == Some(1)
  {
    match deviceId
    case None => None
    case Some(id) =>
      match wmi(PresenceQuery(id))
      case None => None
      case Some(count) => Some(count == 1)
  }
}
