/** The text form of a matchmaking queue entry, as JSON.stringify writes it and JSON.parse reads it.
    Serialize is the canonical writer; Deserialize is a partial reader that accepts the canonical
    text and also the same text padded with JSON whitespace, as JSON.parse does. */
module Codec {
  import opened Wrappers

  /** A parsed queue entry. `interests` is None when the parsed object has no interests array. */
  datatype QueueItem = QueueItem(socketId: SocketId, interests: Option<seq<string>>)

  /** The text every entry starts with: `{"socketId":"`. */
  const Head: string := "{\"socketId\":\""

  /** The text between the socket id and the interests array: `,"interests":`. */
  const InterestsKey: string := ",\"interests\":"

  /** JSON string-body escaping of the two characters that must be escaped to be read back. */
  function Escape(s: string): string {
    if s == [] then []
    else (if s[0] == '"' || s[0] == '\\' then ['\\', s[0]] else [s[0]]) + Escape(s[1..])
  }

  function Quote(s: string): string {
    "\"" + Escape(s) + "\""
  }

  /** The elements of a JSON array of strings, comma separated, without brackets. */
  function Elements(ts: seq<string>): string {
    if ts == [] then []
    else if |ts| == 1 then Quote(ts[0])
    else Quote(ts[0]) + "," + Elements(ts[1..])
  }

  function ArrayText(ts: seq<string>): string {
    "[" + Elements(ts) + "]"
  }

  /** JSON.stringify of an entry object: the interests key is omitted when there is no array. */
  function Serialize(item: QueueItem): string {
    Head + Escape(item.socketId) + "\""
    + (match item.interests
       case None => ""
       case Some(ts) => InterestsKey + ArrayText(ts))
    + "}"
  }

  predicate IsJsonSpace(c: char) {
    c == ' ' || c == '\t' || c == '\n' || c == '\r'
  }

  /** Removes the JSON whitespace JSON.parse tolerates around a value. */
  function StripJsonSpace(s: string): (r: string)
    ensures |r| <= |s|
  {
    if s != [] && IsJsonSpace(s[0]) then StripJsonSpace(s[1..])
    else if s != [] && IsJsonSpace(s[|s| - 1]) then StripJsonSpace(s[..|s| - 1])
    else s
  }

  /** Reads a string body up to its closing quote; the result is the decoded body and the text
      after the closing quote. */
  function ParseString(t: string): (r: Option<(string, string)>)
    ensures r.Some? ==> |r.value.1| < |t|
  {
    if t == [] then None
    else if t[0] == '"' then Some(([], t[1..]))
    else if t[0] == '\\' then
      if |t| >= 2 && (t[1] == '"' || t[1] == '\\') then
        match ParseString(t[2..])
        case None => None
        case Some(p) => Some(([t[1]] + p.0, p.1))
      else None
    else
      match ParseString(t[1..])
      case None => None
      case Some(p) => Some(([t[0]] + p.0, p.1))
  }

  /** Reads `"a","b",...]`: one or more quoted strings and the closing bracket. */
  function ParseElements(t: string): (r: Option<(seq<string>, string)>)
    ensures r.Some? ==> |r.value.1| < |t|
    decreases |t|
  {
    if t == [] || t[0] != '"' then None
    else
      match ParseString(t[1..])
      case None => None
      case Some(p) =>
        var rest := p.1;
        if rest != [] && rest[0] == ']' then Some(([p.0], rest[1..]))
        else if rest != [] && rest[0] == ',' then
          match ParseElements(rest[1..])
          case None => None
          case Some(q) => Some(([p.0] + q.0, q.1))
        else None
  }

  /** Reads a JSON array of strings. */
  function ParseArray(t: string): (r: Option<(seq<string>, string)>) {
    if |t| >= 2 && t[0] == '[' && t[1] == ']' then Some(([], t[2..]))
    else if t != [] && t[0] == '[' then ParseElements(t[1..])
    else None
  }

  /** JSON.parse of an entry. None is every text the relay cannot use as an entry. */
  function Deserialize(raw: string): Option<QueueItem> {
    var t := StripJsonSpace(raw);
    if !(Head <= t) then None
    else
      match ParseString(t[|Head|..])
      case None => None
      case Some(p) =>
        var rest := p.1;
        if rest == "}" then Some(QueueItem(p.0, None))
        else if InterestsKey <= rest then
          match ParseArray(rest[|InterestsKey|..])
          case None => None
          case Some(q) => if q.1 == "}" then Some(QueueItem(p.0, Some(q.0))) else None
        else None
  }

  /** A raw entry is canonical when it is exactly what Serialize writes for the value it reads as
      (a text that does not read as an entry is canonical vacuously). */
  predicate Canonical(raw: string) {
    match Deserialize(raw)
    case None => true
    case Some(item) => Serialize(item) == raw
  }

  lemma {:induction false} ParseEscaped(s: string, rest: string)
    ensures ParseString(Escape(s) + "\"" + rest) == Some((s, rest))
  {
    if s == [] {
      assert Escape(s) + "\"" + rest == ['"'] + rest;
    } else {
      var e := if s[0] == '"' || s[0] == '\\' then ['\\', s[0]] else [s[0]];
      var u := Escape(s[1..]) + "\"" + rest;
      assert Escape(s) == e + Escape(s[1..]);
      assert Escape(s) + "\"" + rest == e + u;
      ParseEscaped(s[1..], rest);
      ParseChar(s[0], u, s[1..], rest);
      assert [s[0]] + s[1..] == s;
    }
  }

  /** ParseString reads one character of a string body, escaped when it must be. */
  lemma ParseChar(c: char, u: string, body: string, rest: string)
    requires ParseString(u) == Some((body, rest))
    ensures var e := if c == '"' || c == '\\' then ['\\', c] else [c];
            ParseString(e + u) == Some(([c] + body, rest))
  {
    if c == '"' || c == '\\' {
      assert (['\\', c] + u)[2..] == u;
    } else {
      assert ([c] + u)[1..] == u;
    }
  }

  /** One step of ParseElements: a quoted string followed by `]` or by `,` and more elements. */
  lemma ParseElementsStep(x: string, after: string)
    ensures ParseElements("\"" + Escape(x) + "\"" + after)
         == if after != [] && after[0] == ']' then Some(([x], after[1..]))
            else if after != [] && after[0] == ',' then
              match ParseElements(after[1..])
              case None => None
              case Some(q) => Some(([x] + q.0, q.1))
            else None
  {
    var t := "\"" + Escape(x) + "\"" + after;
    assert t[1..] == Escape(x) + "\"" + after;
    ParseEscaped(x, after);
  }

  lemma {:induction false} ParseElementsOf(ts: seq<string>, rest: string)
    requires ts != []
    ensures ParseElements(Elements(ts) + "]" + rest) == Some((ts, rest))
  {
    var x := ts[0];
    if |ts| == 1 {
      var after := "]" + rest;
      calc {
        Elements(ts) + "]" + rest;
        Quote(x) + "]" + rest;
        "\"" + Escape(x) + "\"" + after;
      }
      ParseElementsStep(x, after);
      assert [x] == ts;
    } else {
      var tail := Elements(ts[1..]) + "]" + rest;
      var after := "," + tail;
      calc {
        Elements(ts) + "]" + rest;
        Quote(x) + "," + Elements(ts[1..]) + "]" + rest;
        "\"" + Escape(x) + "\"" + after;
      }
      ParseElementsStep(x, after);
      assert after[1..] == tail;
      ParseElementsOf(ts[1..], rest);
      assert [x] + ts[1..] == ts;
    }
  }

  lemma ParseArrayOf(ts: seq<string>, rest: string)
    ensures ParseArray(ArrayText(ts) + rest) == Some((ts, rest))
  {
    var t := ArrayText(ts) + rest;
    if ts == [] {
      assert t == "[]" + rest;
    } else {
      ParseElementsOf(ts, rest);
      assert t[1..] == Elements(ts) + "]" + rest;
    }
  }

  /** The text Serialize writes starts with `{` and ends with `}`, so stripping leaves it alone. */
  lemma StripSerialized(item: QueueItem)
    ensures StripJsonSpace(Serialize(item)) == Serialize(item)
  {
    var s := Serialize(item);
    assert s[0] == '{';
    assert s[|s| - 1] == '}';
  }

  /** Reading a text that starts like an entry: the socket id is decoded, and what follows the
      id decides between an entry without interests, one with an array, and malformed text. */
  lemma ReadEntry(id: SocketId, rest: string)
    requires StripJsonSpace(Head + Escape(id) + "\"" + rest) == Head + Escape(id) + "\"" + rest
    ensures Deserialize(Head + Escape(id) + "\"" + rest)
         == if rest == "}" then Some(QueueItem(id, None))
            else if InterestsKey <= rest then
              match ParseArray(rest[|InterestsKey|..])
              case None => None
              case Some(q) => if q.1 == "}" then Some(QueueItem(id, Some(q.0))) else None
            else None
  {
    var t := Head + Escape(id) + "\"" + rest;
    assert t == Head + (Escape(id) + "\"" + rest);
    assert Head <= t;
    assert t[|Head|..] == Escape(id) + "\"" + rest;
    ParseEscaped(id, rest);
  }

  /** An entry without an interests array reads back. */
  lemma RoundTripBare(id: SocketId)
    ensures Deserialize(Serialize(QueueItem(id, None))) == Some(QueueItem(id, None))
  {
    StripSerialized(QueueItem(id, None));
    assert Serialize(QueueItem(id, None)) == Head + Escape(id) + "\"" + "}";
    ReadEntry(id, "}");
  }

  /** An entry with an interests array reads back, array included. */
  lemma RoundTripWith(id: SocketId, ts: seq<string>)
    ensures Deserialize(Serialize(QueueItem(id, Some(ts)))) == Some(QueueItem(id, Some(ts)))
  {
    var after := InterestsKey + ArrayText(ts) + "}";
    StripSerialized(QueueItem(id, Some(ts)));
    assert Serialize(QueueItem(id, Some(ts))) == Head + Escape(id) + "\"" + after;
    ReadEntry(id, after);
    ArrayAfterKey(ts);
    ParseArrayOf(ts, "}");
  }

  lemma ArrayAfterKey(ts: seq<string>)
    ensures var after := InterestsKey + ArrayText(ts) + "}";
            && after != "}" && InterestsKey <= after
            && after[|InterestsKey|..] == ArrayText(ts) + "}"
  {
    var after := InterestsKey + ArrayText(ts) + "}";
    assert after == InterestsKey + (ArrayText(ts) + "}");
    assert after[0] == ',';
  }

  /** JSON.parse(JSON.stringify(item)) gives item back. */
  lemma RoundTrip(item: QueueItem)
    ensures Deserialize(Serialize(item)) == Some(item)
  {
    match item.interests
    case None => RoundTripBare(item.socketId);
    case Some(ts) => RoundTripWith(item.socketId, ts);
  }

  /** Every entry the relay writes is canonical. */
  lemma SerializedIsCanonical(item: QueueItem)
    ensures Canonical(Serialize(item))
  {
    RoundTrip(item);
  }

  /** Distinct entries have distinct texts. */
  lemma SerializeInjective(a: QueueItem, b: QueueItem)
    requires Serialize(a) == Serialize(b)
    ensures a == b
  {
    RoundTrip(a);
    RoundTrip(b);
  }

  /** The converse does not hold for every text JSON.parse accepts: a padded entry reads as the same
      item but re-serialises to a different text, which a removal by value would not find. */
  lemma PaddedEntryIsNotCanonical(item: QueueItem)
    ensures Deserialize(" " + Serialize(item)) == Some(item)
    ensures !Canonical(" " + Serialize(item))
  {
    var s := Serialize(item);
    var p := " " + s;
    assert p[1..] == s;
    assert StripJsonSpace(p) == StripJsonSpace(s);
    RoundTrip(item);
    assert |Serialize(item)| < |p|;
  }
}
