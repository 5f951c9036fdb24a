/**
 * The chat protocol task: it turns one received chunk into the calls it
 * makes on its connection and the connection's next action.
 *
 * The chunk is read through a `std::istringstream` with the C locale: a
 * `char` extraction skips whitespace and takes one byte, a `std::string`
 * extraction skips whitespace and takes the longest run of non-whitespace
 * bytes. `SkipWs`, `SplitWord` and `NextToken` model those two extractions.
 */
module TaskChat {
  import Connection

  /** One byte of the receive buffer. */
  type Byte = c: char | c as int < 256

  /** The C locale's whitespace: space, \t, \n, \v, \f and \r. */
  const Whitespace: set<char> := {' ', '\t', '\n', '\U{0B}', '\U{0C}', '\r'}

  /** The C locale's `isspace`. */
  predicate IsSpace(c: Byte) {
    c in Whitespace
  }

  predicate AllSpace(s: seq<Byte>) {
    forall i :: 0 <= i < |s| ==> IsSpace(s[i])
  }

  predicate NoSpace(s: seq<Byte>) {
    forall i :: 0 <= i < |s| ==> !IsSpace(s[i])
  }

  /** A call the task makes on its connection. */
  datatype Effect =
    | SetId(id: seq<Byte>)
    | Response(message: seq<Byte>)
    | Broadcast(message: seq<Byte>)
    | Unicast(receiverId: seq<Byte>, message: seq<Byte>)
    | Log(message: seq<Byte>)
    | Read
    | Disconnect

  /** The calls made while parsing one chunk, in order, and the action
      returned to the connection. */
  datatype Parsed = Parsed(effects: seq<Effect>, next: Connection.Action)

  /** What remains of `s` once the stream has skipped leading whitespace:
      nothing exactly when `s` is all whitespace, and otherwise something
      that starts with a non-whitespace byte. `SkipWsDropsSpace` shows that
      only a whitespace prefix is dropped. */
  function SkipWs(s: seq<Byte>): (r: seq<Byte>)
    ensures |r| <= |s|
    ensures r == [] <==> AllSpace(s)
    ensures r == [] || !IsSpace(r[0])
  {
    if s != [] && IsSpace(s[0]) then
      var r := SkipWs(s[1..]);
      assert AllSpace(s[1..]) ==> AllSpace(s) by {
        if AllSpace(s[1..]) {
          assert forall i :: 1 <= i < |s| ==> s[i] == s[1..][i - 1];
        }
      }
      r
    else
      s
  }

  /** `s` split after its longest whitespace-free prefix: that prefix is
      what a string extraction takes once whitespace has been skipped, and
      the rest stays in the stream. */
  function SplitWord(s: seq<Byte>): (r: (seq<Byte>, seq<Byte>))
    ensures r.0 + r.1 == s
    ensures NoSpace(r.0)
    ensures r.1 == [] || IsSpace(r.1[0])
  {
    if s == [] || IsSpace(s[0]) then
      ([], s)
    else
      var (t, rest) := SplitWord(s[1..]);
      assert [s[0]] + t + rest == [s[0]] + (t + rest);
      assert s == [s[0]] + s[1..];
      ([s[0]] + t, rest)
  }

  /** `iss >> str` on a stream holding `s`: the token read (empty when only
      whitespace is left, where the freshly declared string keeps its empty
      value) and what is left in the stream. */
  function NextToken(s: seq<Byte>): (r: (seq<Byte>, seq<Byte>))
    ensures NoSpace(r.0)
    ensures SkipWs(s) == r.0 + r.1
    ensures r.1 == [] || IsSpace(r.1[0])
  {
    SplitWord(SkipWs(s))
  }

  /** The command byte `iss >> command` reads; only defined when the chunk
      holds something other than whitespace. */
  function Command(buffer: seq<Byte>): (c: Byte)
    requires !AllSpace(buffer)
    ensures !IsSpace(c)
  {
    SkipWs(buffer)[0]
  }

  /** The fixed parts of the replies: `Hello '<id>'.` and
      `Unknown command '<c>'.`. */
  const HelloOpen: seq<Byte> := "Hello '"
  const UnknownOpen: seq<Byte> := "Unknown command '"
  const QuoteClose: seq<Byte> := "'."

  /** The calls end with exactly one `Read` and never disconnect. */
  predicate EndsWithRead(effects: seq<Effect>) {
    && effects != []
    && effects[|effects| - 1] == Read
    && Read !in effects[..|effects| - 1]
    && Disconnect !in effects
  }

  /** `TaskChat::start`: the first action of every chat connection. */
  function Start(): (a: Connection.Action)
    ensures a == Connection.Read
  {
    Connection.Read
  }

  /** `TaskChat::process`: the chat task does nothing when asked to
      post-process. */
  function Process(): (effects: seq<Effect>)
    ensures effects == []
  {
    []
  }

  // One function per branch of `TaskChat::parse`, each giving the calls
  // that branch makes on the connection, in order.

  /** `h`: the id is the next token; set it, greet it, read again. */
  function HelloCommand(input: seq<Byte>): (calls: seq<Effect>)
    ensures EndsWithRead(calls)
  {
    var id := NextToken(input).0;
    [SetId(id), Response(HelloOpen + id + QuoteClose), Read]
  }

  /** `b`: broadcast the next token, read again. */
  function BroadcastCommand(input: seq<Byte>): (calls: seq<Effect>)
    ensures EndsWithRead(calls)
  {
    [Broadcast(NextToken(input).0), Read]
  }

  /** `u`: the next token names the receiver, the one after it is the
      message; unicast it, read again. */
  function UnicastCommand(input: seq<Byte>): (calls: seq<Effect>)
    ensures EndsWithRead(calls)
  {
    var (id, rest) := NextToken(input);
    [Unicast(id, NextToken(rest).0), Read]
  }

  /** `l`: log the next token, read again. */
  function LogCommand(input: seq<Byte>): (calls: seq<Effect>)
    ensures EndsWithRead(calls)
  {
    [Log(NextToken(input).0), Read]
  }

  /** `e`: send the next token back, read again. */
  function EchoCommand(input: seq<Byte>): (calls: seq<Effect>)
    ensures EndsWithRead(calls)
  {
    [Response(NextToken(input).0), Read]
  }

  /** Any other command byte: report it as unknown, read again. */
  function UnknownCommand(command: Byte): (calls: seq<Effect>)
    ensures EndsWithRead(calls)
  {
    [Response(UnknownOpen + [command] + QuoteClose), Read]
  }

  /** `TaskChat::parse` once its command byte has been read: `command` is
      that byte and `input` what follows it in the stream. */
  function Dispatch(command: Byte, input: seq<Byte>): (r: Parsed)
    ensures r.next == Connection.Process
    ensures command == 'd' <==> r.effects == [Disconnect]
    ensures command != 'd' ==> EndsWithRead(r.effects)
  {
    var calls :=
      if command == 'h' then HelloCommand(input)
      else if command == 'b' then BroadcastCommand(input)
      else if command == 'u' then UnicastCommand(input)
      else if command == 'd' then [Disconnect]
      else if command == 'l' then LogCommand(input)
      else if command == 'e' then EchoCommand(input)
      else UnknownCommand(command);
    Parsed(calls, Connection.Process)
  }

  /** `TaskChat::parse`: interpret one received chunk. A chunk of nothing but
      whitespace leaves the command byte uninitialised, so it is excluded. */
  function Parse(buffer: seq<Byte>): (r: Parsed)
    requires !AllSpace(buffer)
    ensures r.next == Connection.Process
    ensures Command(buffer) == 'd' <==> r.effects == [Disconnect]
    ensures Command(buffer) != 'd' ==> EndsWithRead(r.effects)
  {
    var s := SkipWs(buffer);
    Dispatch(s[0], s[1..])
  }

  // ---------------------------------------------------------------------
  // The stream extractions, characterised independently of their recursion
  // ---------------------------------------------------------------------

  /** `gap + t + rest` is read by one string extraction as the token `t`:
      `gap` is whitespace, `t` has none, and `t` ends where `rest` starts
      with whitespace or the chunk ends (when `t` is empty, nothing but
      whitespace follows). */
  predicate Delimits(gap: seq<Byte>, t: seq<Byte>, rest: seq<Byte>) {
    && AllSpace(gap)
    && NoSpace(t)
    && if t == [] then AllSpace(rest) else rest == [] || IsSpace(rest[0])
  }

  /** Whitespace in front of the stream does not change what is read. */
  lemma {:induction false} SkipWsPastSpace(lead: seq<Byte>, s: seq<Byte>)
    requires AllSpace(lead)
    ensures SkipWs(lead + s) == SkipWs(s)
  {
    if lead == [] {
      assert lead + s == s;
    } else {
      assert (lead + s)[0] == lead[0];
      assert (lead + s)[1..] == lead[1..] + s;
      SkipWsPastSpace(lead[1..], s);
    }
  }

  /** `SkipWs` drops a whitespace prefix and nothing else. */
  lemma {:induction false} SkipWsDropsSpace(s: seq<Byte>)
    ensures SkipWs(s) == s[|s| - |SkipWs(s)|..]
    ensures AllSpace(s[..|s| - |SkipWs(s)|])
  {
    if s != [] && IsSpace(s[0]) {
      var r := SkipWs(s[1..]);
      var k := |s| - |r|;
      assert SkipWs(s) == r;
      SkipWsDropsSpace(s[1..]);
      assert r == s[k..] by {
        assert s[1..][k - 1..] == s[k..];
      }
      forall i | 0 <= i < k
        ensures IsSpace(s[..k][i])
      {
        if i > 0 {
          assert s[..k][i] == s[1..][..k - 1][i - 1];
        }
      }
    }
  }

  /** A whitespace-free word followed by whitespace or the end of the chunk
      is taken whole, and nothing more. */
  lemma {:induction false} SplitWordOfWord(t: seq<Byte>, rest: seq<Byte>)
    requires NoSpace(t) && (rest == [] || IsSpace(rest[0]))
    ensures SplitWord(t + rest) == (t, rest)
  {
    if t == [] {
      assert t + rest == rest;
    } else {
      assert (t + rest)[0] == t[0];
      assert SkipWs(t + rest) == t + rest;
      assert (t + rest)[1..] == t[1..] + rest;
      SplitWordOfWord(t[1..], rest);
      assert [t[0]] + t[1..] == t;
    }
  }

  /** A string extraction from nothing but whitespace reads nothing. */
  lemma NextTokenOfSpace(s: seq<Byte>)
    requires AllSpace(s)
    ensures NextToken(s) == ([], [])
  {
    assert SkipWs(s) == [] by {
      assert s + [] == s;
      SkipWsPastSpace(s, []);
    }
  }

  /** A string extraction past whitespace reads the word that follows it. */
  lemma NextTokenOfWord(gap: seq<Byte>, t: seq<Byte>, rest: seq<Byte>)
    requires AllSpace(gap) && t != [] && NoSpace(t) && (rest == [] || IsSpace(rest[0]))
    ensures NextToken(gap + (t + rest)) == (t, rest)
  {
    assert SkipWs(gap + (t + rest)) == t + rest by {
      SkipWsPastSpace(gap, t + rest);
      assert (t + rest)[0] == t[0];
    }
    SplitWordOfWord(t, rest);
  }

  /** One string extraction from `gap + t + rest` yields `t` and leaves
      `rest` in the stream. */
  lemma NextTokenReads(gap: seq<Byte>, t: seq<Byte>, rest: seq<Byte>)
    requires Delimits(gap, t, rest)
    ensures NextToken(gap + t + rest).0 == t
    ensures t != [] ==> NextToken(gap + t + rest).1 == rest
  {
    assert gap + t + rest == gap + (t + rest);
    if t == [] {
      assert gap + t + rest == gap + rest;
      AllSpaceAppend(gap, rest);
      NextTokenOfSpace(gap + rest);
    } else {
      NextTokenOfWord(gap, t, rest);
    }
  }

  lemma AllSpaceAppend(a: seq<Byte>, b: seq<Byte>)
    requires AllSpace(a) && AllSpace(b)
    ensures AllSpace(a + b)
  {
    forall i | 0 <= i < |a + b|
      ensures IsSpace((a + b)[i])
    {
      if i >= |a| {
        assert (a + b)[i] == b[i - |a|];
      }
    }
  }

  /** Whitespace before the command byte is skipped: parsing starts at the
      first non-whitespace byte, which is the command. */
  lemma ParseReadsCommand(lead: seq<Byte>, c: Byte, input: seq<Byte>)
    requires AllSpace(lead) && !IsSpace(c)
    ensures !AllSpace(lead + [c] + input)
    ensures Command(lead + [c] + input) == c
    ensures Parse(lead + [c] + input) == Dispatch(c, input)
  {
    var buffer := lead + [c] + input;
    assert buffer[|lead|] == c;
    assert buffer == lead + ([c] + input);
    SkipWsPastSpace(lead, [c] + input);
    assert ([c] + input)[1..] == input;
  }

  /** Regrouping a chunk written as command prefix, gap, token and remainder. */
  lemma Regroup3<T>(p: seq<T>, a: seq<T>, b: seq<T>, c: seq<T>)
    ensures p + a + b + c == p + (a + b + c)
  {
  }

  /** Regrouping a chunk written as command prefix, id gap, id, message gap,
      message and remainder. */
  lemma Regroup<T>(p: seq<T>, a: seq<T>, b: seq<T>, c: seq<T>, d: seq<T>, e: seq<T>)
    ensures p + a + b + c + d + e == p + (a + b + (c + d + e))
  {
    assert c + d + e == c + (d + e);
    assert a + b + (c + d + e) == a + (b + (c + (d + e)));
  }

  // ---------------------------------------------------------------------
  // What each command does
  // ---------------------------------------------------------------------

  /** The string extraction of `h` reads the id. */
  lemma DispatchHello(gap: seq<Byte>, id: seq<Byte>, rest: seq<Byte>)
    requires Delimits(gap, id, rest)
    ensures Dispatch('h', gap + id + rest)
         == Parsed([SetId(id), Response(HelloOpen + id + QuoteClose), Read], Connection.Process)
  {
    assert Dispatch('h', gap + id + rest).effects == HelloCommand(gap + id + rest);
    NextTokenReads(gap, id, rest);
  }

  /** `h <id>`: set the connection's id, greet it, read again. A missing
      id is the empty string. */
  lemma ParseHello(lead: seq<Byte>, gap: seq<Byte>, id: seq<Byte>, rest: seq<Byte>)
    requires AllSpace(lead) && Delimits(gap, id, rest)
    ensures !AllSpace(lead + ['h'] + gap + id + rest)
    ensures Parse(lead + ['h'] + gap + id + rest)
         == Parsed([SetId(id), Response(HelloOpen + id + QuoteClose), Read], Connection.Process)
  {
    Regroup3(lead + ['h'], gap, id, rest);
    ParseReadsCommand(lead, 'h', gap + id + rest);
    DispatchHello(gap, id, rest);
  }

  /** The string extraction of `b` reads the message. */
  lemma DispatchBroadcast(gap: seq<Byte>, message: seq<Byte>, rest: seq<Byte>)
    requires Delimits(gap, message, rest)
    ensures Dispatch('b', gap + message + rest) == Parsed([Broadcast(message), Read], Connection.Process)
  {
    assert Dispatch('b', gap + message + rest).effects == BroadcastCommand(gap + message + rest);
    NextTokenReads(gap, message, rest);
  }

  /** `b <message> ...`: broadcast the first token only, read again. */
  lemma ParseBroadcast(lead: seq<Byte>, gap: seq<Byte>, message: seq<Byte>, rest: seq<Byte>)
    requires AllSpace(lead) && Delimits(gap, message, rest)
    ensures !AllSpace(lead + ['b'] + gap + message + rest)
    ensures Parse(lead + ['b'] + gap + message + rest)
         == Parsed([Broadcast(message), Read], Connection.Process)
  {
    Regroup3(lead + ['b'], gap, message, rest);
    ParseReadsCommand(lead, 'b', gap + message + rest);
    DispatchBroadcast(gap, message, rest);
  }

  /** The two string extractions of `u`: the id, then the message. */
  lemma DispatchUnicast(gap: seq<Byte>, id: seq<Byte>, gap': seq<Byte>,
                        message: seq<Byte>, rest: seq<Byte>)
    requires id != [] && Delimits(gap, id, gap' + message + rest)
    requires Delimits(gap', message, rest)
    ensures Dispatch('u', gap + id + (gap' + message + rest))
         == Parsed([Unicast(id, message), Read], Connection.Process)
  {
    var tail := gap' + message + rest;
    var input := gap + id + tail;
    assert NextToken(input) == (id, tail) by {
      assert input == gap + (id + tail);
      NextTokenOfWord(gap, id, tail);
    }
    assert NextToken(tail).0 == message by {
      NextTokenReads(gap', message, rest);
    }
    assert Dispatch('u', input).effects == UnicastCommand(input);
  }

  /** `u <id> <message> ...`: send the second token to the connection named
      by the first, read again. */
  lemma ParseUnicast(lead: seq<Byte>, gap: seq<Byte>, id: seq<Byte>,
                     gap': seq<Byte>, message: seq<Byte>, rest: seq<Byte>)
    requires AllSpace(lead) && id != [] && Delimits(gap, id, gap' + message + rest)
    requires Delimits(gap', message, rest)
    ensures !AllSpace(lead + ['u'] + gap + id + gap' + message + rest)
    ensures Parse(lead + ['u'] + gap + id + gap' + message + rest)
         == Parsed([Unicast(id, message), Read], Connection.Process)
  {
    var input := gap + id + (gap' + message + rest);
    Regroup(lead + ['u'], gap, id, gap', message, rest);
    ParseReadsCommand(lead, 'u', input);
    DispatchUnicast(gap, id, gap', message, rest);
  }

  /** Both string extractions of `u` fail on whitespace alone. */
  lemma DispatchUnicastNoId(tail: seq<Byte>)
    requires AllSpace(tail)
    ensures Dispatch('u', tail) == Parsed([Unicast([], []), Read], Connection.Process)
  {
    NextTokenOfSpace(tail);
    NextTokenOfSpace([]);
    assert Dispatch('u', tail).effects == UnicastCommand(tail);
  }

  /** `u` with nothing but whitespace after it: unicast of an empty message
      to the empty id, read again. */
  lemma ParseUnicastNoId(lead: seq<Byte>, tail: seq<Byte>)
    requires AllSpace(lead) && AllSpace(tail)
    ensures !AllSpace(lead + ['u'] + tail)
    ensures Parse(lead + ['u'] + tail) == Parsed([Unicast([], []), Read], Connection.Process)
  {
    ParseReadsCommand(lead, 'u', tail);
    DispatchUnicastNoId(tail);
  }

  /** `d ...`: disconnect, and nothing else: no response, no further read. */
  lemma ParseDisconnect(lead: seq<Byte>, input: seq<Byte>)
    requires AllSpace(lead)
    ensures !AllSpace(lead + ['d'] + input)
    ensures Parse(lead + ['d'] + input) == Parsed([Disconnect], Connection.Process)
  {
    ParseReadsCommand(lead, 'd', input);
  }

  /** The string extraction of `l` reads the message. */
  lemma DispatchLog(gap: seq<Byte>, message: seq<Byte>, rest: seq<Byte>)
    requires Delimits(gap, message, rest)
    ensures Dispatch('l', gap + message + rest) == Parsed([Log(message), Read], Connection.Process)
  {
    assert Dispatch('l', gap + message + rest).effects == LogCommand(gap + message + rest);
    NextTokenReads(gap, message, rest);
  }

  /** `l <message> ...`: log the first token only, read again. */
  lemma ParseLog(lead: seq<Byte>, gap: seq<Byte>, message: seq<Byte>, rest: seq<Byte>)
    requires AllSpace(lead) && Delimits(gap, message, rest)
    ensures !AllSpace(lead + ['l'] + gap + message + rest)
    ensures Parse(lead + ['l'] + gap + message + rest)
         == Parsed([Log(message), Read], Connection.Process)
  {
    Regroup3(lead + ['l'], gap, message, rest);
    ParseReadsCommand(lead, 'l', gap + message + rest);
    DispatchLog(gap, message, rest);
  }

  /** The string extraction of `e` reads the message. */
  lemma DispatchEcho(gap: seq<Byte>, message: seq<Byte>, rest: seq<Byte>)
    requires Delimits(gap, message, rest)
    ensures Dispatch('e', gap + message + rest) == Parsed([Response(message), Read], Connection.Process)
  {
    assert Dispatch('e', gap + message + rest).effects == EchoCommand(gap + message + rest);
    NextTokenReads(gap, message, rest);
  }

  /** `e <message> ...`: echo the first token back, read again. */
  lemma ParseEcho(lead: seq<Byte>, gap: seq<Byte>, message: seq<Byte>, rest: seq<Byte>)
    requires AllSpace(lead) && Delimits(gap, message, rest)
    ensures !AllSpace(lead + ['e'] + gap + message + rest)
    ensures Parse(lead + ['e'] + gap + message + rest)
         == Parsed([Response(message), Read], Connection.Process)
  {
    Regroup3(lead + ['e'], gap, message, rest);
    ParseReadsCommand(lead, 'e', gap + message + rest);
    DispatchEcho(gap, message, rest);
  }

  /** Any other command byte is reported back as unknown; read again. */
  lemma ParseUnknown(lead: seq<Byte>, c: Byte, input: seq<Byte>)
    requires AllSpace(lead) && !IsSpace(c)
    requires c != 'h' && c != 'b' && c != 'u' && c != 'd' && c != 'l' && c != 'e'
    ensures !AllSpace(lead + [c] + input)
    ensures Parse(lead + [c] + input)
         == Parsed([Response(UnknownOpen + [c] + QuoteClose), Read], Connection.Process)
  {
    assert !AllSpace(lead + [c] + input) && Parse(lead + [c] + input) == Dispatch(c, input) by {
      ParseReadsCommand(lead, c, input);
    }
  }

  /** Whitespace in front of a chunk changes nothing. */
  lemma ParseSkipsLeadingWhitespace(lead: seq<Byte>, buffer: seq<Byte>)
    requires AllSpace(lead) && !AllSpace(buffer)
    ensures !AllSpace(lead + buffer)
    ensures Parse(lead + buffer) == Parse(buffer)
  {
    var s := SkipWs(buffer);
    var k := |buffer| - |s|;
    assert (lead + buffer)[|lead| + k] == buffer[k];
    SkipWsPastSpace(lead, buffer);
  }
}
