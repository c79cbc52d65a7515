/**
 * The text control protocol a device speaks on its control connection:
 * `INF;<imei>` (register) and `HEARTBEAT;<imei>` (liveness), answered by
 * `HEARTBEAT_ACK`. A received message is split on ';' exactly as
 * String.Split(';') does, keeping empty parts.
 */
module Protocol {

  const Delimiter: char := ';'
  const InfTag: string := "INF"
  const HeartbeatTag: string := "HEARTBEAT"
  const HeartbeatAck: string := "HEARTBEAT_ACK"

  /** Number of occurrences of `d` in `s`. */
  function Occurrences(s: string, d: char): nat
  {
    if |s| == 0 then 0 else (if s[0] == d then 1 else 0) + Occurrences(s[1..], d)
  }

  /** String.Split on one delimiter character: every part is kept, empty ones included. */
  function Split(s: string, d: char): (parts: seq<string>)
    ensures |parts| >= 1
    ensures d !in s ==> parts == [s]
  {
    if |s| == 0 then [""]
    else
      var rest := Split(s[1..], d);
      if s[0] == d then [""] + rest
      else
        assert d !in s ==> d !in s[1..] && s == [s[0]] + s[1..];
        [[s[0]] + rest[0]] + rest[1..]
  }

  /** String.Join with one delimiter character, the inverse of Split. */
  function Join(parts: seq<string>, d: char): string
  {
    if |parts| == 0 then ""
    else if |parts| == 1 then parts[0]
    else parts[0] + [d] + Join(parts[1..], d)
  }

  /** Joining the parts of a split gives back the message. */
  lemma {:induction false} JoinSplit(s: string, d: char)
    ensures Join(Split(s, d), d) == s
  {
    if |s| > 0 {
      var rest := Split(s[1..], d);
      JoinSplit(s[1..], d);
      if s[0] == d {
        assert Split(s, d) == [""] + rest;
        assert s == [d] + s[1..];
      } else {
        var parts := Split(s, d);
        assert parts == [[s[0]] + rest[0]] + rest[1..];
        if |rest| == 1 {
          assert s == [s[0]] + rest[0];
        } else {
          assert parts[1..] == rest[1..];
          assert Join(rest, d) == rest[0] + [d] + Join(rest[1..], d);
          assert s == [s[0]] + s[1..];
        }
      }
    }
  }

  /** No part of a split contains the delimiter. */
  lemma {:induction false} SplitPartsFree(s: string, d: char)
    ensures forall i :: 0 <= i < |Split(s, d)| ==> d !in Split(s, d)[i]
  {
    if |s| > 0 {
      SplitPartsFree(s[1..], d);
    }
  }

  /** A split has one part more than the message has delimiters. */
  lemma {:induction false} SplitLength(s: string, d: char)
    ensures |Split(s, d)| == Occurrences(s, d) + 1
  {
    if |s| > 0 {
      SplitLength(s[1..], d);
    }
  }

  /** Splitting the join of parts free of the delimiter gives back the parts. */
  lemma {:induction false} SplitJoin(parts: seq<string>, d: char)
    requires |parts| >= 1
    requires forall i :: 0 <= i < |parts| ==> d !in parts[i]
    ensures Split(Join(parts, d), d) == parts
  {
    if |parts| > 1 {
      SplitJoin(parts[1..], d);
      SplitPrepend(parts[0], Join(parts[1..], d), d);
    }
  }

  /** Splitting `a + [d] + b`, for `a` free of the delimiter, puts `a` in front of the split of `b`. */
  lemma {:induction false} SplitPrepend(a: string, b: string, d: char)
    requires d !in a
    ensures Split(a + [d] + b, d) == [a] + Split(b, d)
  {
    if |a| == 0 {
      assert a + [d] + b == [d] + b;
      assert ([d] + b)[1..] == b;
    } else {
      SplitPrepend(a[1..], b, d);
      assert (a + [d] + b)[1..] == a[1..] + [d] + b;
      assert [a[0]] + a[1..] == a;
    }
  }

  /** What the read loop does with one received message. */
  datatype Command = Inf(imei: string) | Heartbeat(imei: string) | Ignored

  /** The dispatch on the parts of a message: two parts, the first a known tag. */
  function Parse(message: string): (c: Command)
    ensures !c.Ignored? ==> Delimiter !in c.imei
    ensures !c.Ignored? ==> Occurrences(message, Delimiter) == 1
  {
    var parts := Split(message, Delimiter);
    SplitPartsFree(message, Delimiter);
    SplitLength(message, Delimiter);
    if |parts| == 2 && parts[0] == InfTag then Inf(parts[1])
    else if |parts| == 2 && parts[0] == HeartbeatTag then Heartbeat(parts[1])
    else Ignored
  }

  /** A message is an `INF` for `imei` exactly when it reads `INF;<imei>` and `imei` holds no ';'. */
  lemma ParseInf(message: string, imei: string)
    ensures Parse(message) == Inf(imei) <==> message == InfTag + [Delimiter] + imei && Delimiter !in imei
  {
    Tagged(message, InfTag, imei);
  }

  /** A message is a `HEARTBEAT` for `imei` exactly when it reads `HEARTBEAT;<imei>` and `imei` holds no ';'. */
  lemma ParseHeartbeat(message: string, imei: string)
    ensures Parse(message) == Heartbeat(imei) <==> message == HeartbeatTag + [Delimiter] + imei && Delimiter !in imei
  {
    Tagged(message, HeartbeatTag, imei);
  }

  /** A message is ignored exactly when it is neither `INF;<imei>` nor `HEARTBEAT;<imei>` for a ';'-free `imei`. */
  lemma ParseIgnored(message: string)
    ensures Parse(message) == Ignored <==>
      !exists imei :: Delimiter !in imei &&
        (message == InfTag + [Delimiter] + imei || message == HeartbeatTag + [Delimiter] + imei)
  {
    var c := Parse(message);
    if c.Inf? {
      ParseInf(message, c.imei);
    } else if c.Heartbeat? {
      ParseHeartbeat(message, c.imei);
    } else {
      forall imei | Delimiter !in imei
        ensures message != InfTag + [Delimiter] + imei && message != HeartbeatTag + [Delimiter] + imei
      {
        ParseInf(message, imei);
        ParseHeartbeat(message, imei);
      }
    }
  }

  /** The split of a message has the two parts `tag` and `imei` exactly when the message is `tag;imei`. */
  lemma Tagged(message: string, tag: string, imei: string)
    requires Delimiter !in tag
    ensures (Split(message, Delimiter) == [tag, imei]) <==>
      message == tag + [Delimiter] + imei && Delimiter !in imei
  {
    if Split(message, Delimiter) == [tag, imei] {
      JoinSplit(message, Delimiter);
      SplitPartsFree(message, Delimiter);
      assert Split(message, Delimiter)[1] == imei;
      assert Join([tag, imei], Delimiter) == tag + [Delimiter] + Join([imei], Delimiter);
    }
    if message == tag + [Delimiter] + imei && Delimiter !in imei {
      SplitPrepend(tag, imei, Delimiter);
    }
  }
}
