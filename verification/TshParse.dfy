/** The shell's command tokenizer of 3/tsh-parse.c, which cuts the command in place. */
module TshParse {
  import opened Options

  const NUL: char := 0 as char

  predicate IsWhite(c: char)
  {
    c == ' ' || c == '\t' || c == '\n' || c == '\r'
  }

  /** The first position from at on that holds no white space. */
  function Skip(s: string, at: nat): (p: nat)
    requires at <= |s|
    ensures at <= p <= |s|
    decreases |s| - at
  {
    if at < |s| && IsWhite(s[at]) then Skip(s, at + 1) else at
  }

  /** The first position from at on that holds c, or |s|. */
  function Find(s: string, at: nat, c: char): (p: nat)
    requires at <= |s|
    ensures at <= p <= |s| && (p < |s| ==> s[p] == c)
    decreases |s| - at
  {
    if at < |s| && s[at] != c then Find(s, at + 1, c) else at
  }

  /** A token lies from start to end; closed says that a terminator was found there. */
  datatype Token = Token(start: nat, end: nat, quoted: bool, closed: bool)

  function Terminator(quoted: bool): char
  {
    if quoted then '\'' else ' '
  }

  /** The token that starts at p, where there is no white space. */
  function TokenAt(s: string, p: nat): (t: Token)
    requires p < |s|
    ensures t.quoted == (s[p] == '\'') && t.start == (if t.quoted then p + 1 else p)
    ensures t.start <= t.end <= |s| && t.closed == (t.end < |s|)
    ensures t.closed ==> s[t.end] == Terminator(t.quoted)
  {
    var quoted := s[p] == '\'';
    var start := if quoted then p + 1 else p;
    var end := Find(s, start, Terminator(quoted));
    Token(start, end, quoted, end < |s|)
  }

  /** The tokens of s from at on, at most room of them. */
  function Scan(s: string, at: nat, room: nat): seq<Token>
    requires at <= |s|
    decreases |s| - at
  {
    var p := Skip(s, at);
    if room == 0 || p == |s| then []
    else
      var t := TokenAt(s, p);
      [t] + if t.closed then Scan(s, t.end + 1, room - 1) else []
  }

  predicate Unmatched(ts: seq<Token>)
  {
    ts != [] && ts[|ts| - 1].quoted && !ts[|ts| - 1].closed
  }

  /** How many arguments there are; too many, or a quote without its mate, count as none. */
  function Count(ts: seq<Token>, maxArguments: nat): nat
  {
    if Unmatched(ts) || |ts| == maxArguments then 0 else |ts|
  }

  /** The last argument asks for the background, or there is none. */
  predicate Background(s: string, ts: seq<Token>, count: nat)
    requires count <= |ts|
  {
    count == 0 || (ts[count - 1].start < ts[count - 1].end <= |s| && s[ts[count - 1].start] == '&')
  }

  ghost predicate IsCut(ts: seq<Token>, i: nat)
  {
    exists k :: 0 <= k < |ts| && ts[k].closed && ts[k].end == i
  }

  // ----- where the tokens are

  /** The tokens follow each other, each up to its first terminator; only the last may be without one. */
  ghost predicate InOrder(s: string, ts: seq<Token>, at: nat)
  {
    && (forall k :: 0 <= k < |ts| ==> at <= ts[k].start <= ts[k].end <= |s|)
    && (forall k :: 0 <= k < |ts| ==> if ts[k].closed then ts[k].end < |s| else k == |ts| - 1 && ts[k].end == |s|)
    && (forall k :: 0 <= k < |ts| && ts[k].closed ==> s[ts[k].end] == Terminator(ts[k].quoted))
    && (forall j, k :: 0 <= j < k < |ts| ==> ts[j].end < ts[k].start)
  }

  lemma ScanEnd(s: string, at: nat, room: nat)
    requires at <= |s| && (room == 0 || Skip(s, at) == |s|)
    ensures Scan(s, at, room) == []
  {
  }

  lemma ScanNext(s: string, at: nat, room: nat, t: Token)
    requires at <= |s| && room > 0 && Skip(s, at) < |s| && t == TokenAt(s, Skip(s, at))
    ensures Scan(s, at, room) == if t.closed then [t] + Scan(s, t.end + 1, room - 1) else [t]
  {
    hide TokenAt;
  }

  lemma OrderMore(s: string, t: Token, rest: seq<Token>, at: nat)
    requires at <= t.start <= t.end < |s| && t.closed && s[t.end] == Terminator(t.quoted)
    requires InOrder(s, rest, t.end + 1)
    ensures InOrder(s, [t] + rest, at)
  {
    var ts := [t] + rest;
    assert forall k :: 1 <= k < |ts| ==> ts[k] == rest[k - 1];
  }

  lemma OrderOne(s: string, t: Token, at: nat)
    requires at <= t.start <= t.end == |s| && !t.closed
    ensures InOrder(s, [t], at)
  {
  }

  lemma OrderNone(s: string, at: nat)
    ensures InOrder(s, [], at)
  {
  }

  lemma {:induction false} TokensInOrder(s: string, at: nat, room: nat)
    requires at <= |s|
    ensures InOrder(s, Scan(s, at, room), at) && |Scan(s, at, room)| <= room
    decreases |s| - at
  {
    hide Scan, TokenAt, Skip, InOrder;
    var p := Skip(s, at);
    if room > 0 && p < |s| {
      var t := TokenAt(s, p);
      ScanNext(s, at, room, t);
      if t.closed {
        TokensInOrder(s, t.end + 1, room - 1);
        OrderMore(s, t, Scan(s, t.end + 1, room - 1), at);
      } else {
        OrderOne(s, t, at);
      }
    } else {
      ScanEnd(s, at, room);
      OrderNone(s, at);
    }
  }

  /** A token starts at no white space, behind its quote if it has one, and reaches up to its first terminator. */
  ghost predicate IsToken(s: string, t: Token)
  {
    && t.start <= t.end <= |s|
    && (if t.quoted then t.start > 0 && s[t.start - 1] == '\''
        else t.start < |s| && s[t.start] !in " \t\n\r'")
    && (t.closed <==> t.end < |s|)
    && var terminator := if t.quoted then '\'' else ' ';
       (t.closed ==> s[t.end] == terminator) && forall i :: t.start <= i < t.end ==> s[i] != terminator
  }

  lemma {:induction false} TokensAreMaximal(s: string, at: nat, room: nat)
    requires at <= |s|
    ensures forall k :: 0 <= k < |Scan(s, at, room)| ==> IsToken(s, Scan(s, at, room)[k])
    decreases |s| - at
  {
    hide IsToken, Skip;
    var p := Skip(s, at);
    if room > 0 && p < |s| {
      var t := TokenAt(s, p);
      SkipStops(s, at);
      TokenIsToken(s, p);
      if t.closed {
        hide TokenAt;
        TokensAreMaximal(s, t.end + 1, room - 1);
      }
    }
  }

  /** Position i belongs to a token, to its terminator, or to its opening quote. */
  ghost predicate IsTaken(ts: seq<Token>, i: nat)
  {
    exists k :: 0 <= k < |ts| && (if ts[k].quoted then ts[k].start - 1 else ts[k].start) <= i <= ts[k].end
  }

  /** While there is room, nothing but white space is passed over. */
  lemma {:induction false} OnlyWhiteIsSkipped(s: string, at: nat, room: nat)
    requires at <= |s| && |Scan(s, at, room)| < room
    ensures forall i: nat :: at <= i < |s| ==> s[i] in " \t\n\r" || IsTaken(Scan(s, at, room), i)
    decreases |s| - at
  {
    WhiteIsWhite();
    hide Scan, Skip, TokenAt, IsWhite, IsTaken;
    var p := Skip(s, at);
    SkipStops(s, at);
    if p < |s| {
      var t := TokenAt(s, p);
      ScanNext(s, at, room, t);
      var rest := if t.closed then Scan(s, t.end + 1, room - 1) else [];
      assert [t] + [] == [t];
      if t.closed {
        OnlyWhiteIsSkipped(s, t.end + 1, room - 1);
      }
      forall i: nat | p <= i < |s| ensures s[i] in " \t\n\r" || IsTaken([t] + rest, i) {
        TakenMore(t, rest, i);
      }
    }
  }

  lemma WhiteIsWhite()
    ensures forall c :: IsWhite(c) <==> c in " \t\n\r"
  {
  }

  lemma TakenMore(t: Token, rest: seq<Token>, i: nat)
    ensures (if t.quoted then t.start - 1 else t.start) <= i <= t.end || IsTaken(rest, i) ==> IsTaken([t] + rest, i)
  {
    var ts := [t] + rest;
    assert ts[0] == t;
    if IsTaken(rest, i) {
      var k :| 0 <= k < |rest| && (if rest[k].quoted then rest[k].start - 1 else rest[k].start) <= i <= rest[k].end;
      assert ts[k + 1] == rest[k];
    }
  }

  lemma TokenIsToken(s: string, p: nat)
    requires p < |s| && !IsWhite(s[p])
    ensures IsToken(s, TokenAt(s, p))
  {
    var t := TokenAt(s, p);
    FindStops(s, t.start, Terminator(t.quoted));
  }

  lemma SkipTwice(s: string, at: nat, room: nat)
    requires at <= |s|
    ensures Scan(s, Skip(s, at), room) == Scan(s, at, room)
  {
    hide Scan, Skip, TokenAt, IsWhite;
    var p := Skip(s, at);
    SkipStops(s, at);
    SkipIs(s, p, p);
    if room == 0 || p == |s| {
      ScanEnd(s, at, room);
      ScanEnd(s, p, room);
    } else {
      ScanNext(s, at, room, TokenAt(s, p));
      ScanNext(s, p, room, TokenAt(s, p));
    }
  }

  lemma {:induction false} SkipIs(s: string, at: nat, p: nat)
    requires at <= p <= |s| && (forall i :: at <= i < p ==> IsWhite(s[i])) && (p < |s| ==> !IsWhite(s[p]))
    ensures Skip(s, at) == p
    decreases p - at
  {
    if at < p {
      SkipIs(s, at + 1, p);
    }
  }

  lemma {:induction false} SkipStops(s: string, at: nat)
    requires at <= |s|
    ensures Skip(s, at) < |s| ==> !IsWhite(s[Skip(s, at)])
    ensures forall i :: at <= i < Skip(s, at) ==> IsWhite(s[i])
    decreases |s| - at
  {
    if at < |s| && IsWhite(s[at]) {
      SkipStops(s, at + 1);
    }
  }

  lemma {:induction false} FindIs(s: string, at: nat, c: char, p: nat)
    requires at <= p <= |s| && (forall i :: at <= i < p ==> s[i] != c) && (p < |s| ==> s[p] == c)
    ensures Find(s, at, c) == p
    decreases p - at
  {
    if at < p {
      FindIs(s, at + 1, c, p);
    }
  }

  lemma {:induction false} FindStops(s: string, at: nat, c: char)
    requires at <= |s|
    ensures forall i :: at <= i < Find(s, at, c) ==> s[i] != c
    decreases |s| - at
  {
    if at < |s| && s[at] != c {
      FindStops(s, at + 1, c);
    }
  }

  /** The same as TokenAt, from what the code has at hand. */
  lemma TokenIs(s: string, p: nat, quoted: bool, start: nat)
    requires p < |s| && quoted == (s[p] == '\'') && start == (if quoted then p + 1 else p)
    ensures var end := Find(s, start, Terminator(quoted));
            TokenAt(s, p) == Token(start, end, quoted, end < |s|)
  {
  }

  lemma Append(all: seq<Token>, ts: seq<Token>, t: Token, rest: seq<Token>)
    requires all == ts + ([t] + rest)
    ensures all == ts + [t] + rest
  {
  }

  lemma CutMore(ts: seq<Token>, t: Token)
    ensures forall i {:trigger IsCut(ts + [t], i)} :: IsCut(ts + [t], i) <==> IsCut(ts, i) || (t.closed && t.end == i)
  {
    var us := ts + [t];
    assert us[|ts|] == t;
    forall i | IsCut(ts, i) ensures IsCut(us, i) {
      var k :| 0 <= k < |ts| && ts[k].closed && ts[k].end == i;
      assert us[k] == ts[k];
    }
  }

  /** The first character of a token is cut away exactly when the token is empty. */
  lemma FirstIsCut(s: string, ts: seq<Token>, k: nat)
    requires InOrder(s, ts, 0) && k < |ts| && ts[k].closed
    ensures IsCut(ts, ts[k].start) <==> ts[k].start == ts[k].end
  {
  }

  lemma LastIsNotCut(s: string, ts: seq<Token>, k: nat)
    requires InOrder(s, ts, 0) && k < |ts| && !ts[k].closed
    ensures !IsCut(ts, ts[k].start)
  {
  }

  // ----- the code

  /** The buffer still holds s from at on, and the NUL behind it. */
  ghost predicate Holds(b: seq<char>, s: string, at: nat)
  {
    |s| < |b| && b[|s|] == NUL && NUL !in s && forall i :: at <= i < |s| ==> b[i] == s[i]
  }

  lemma HoldsHere(b: seq<char>, s: string, at: nat)
    requires Holds(b, s, at) && at <= |s|
    ensures |s| < |b| && (b[at] == NUL <==> at == |s|) && (at < |s| ==> b[at] == s[at])
  {
  }

  /** What was cut lies behind. */
  lemma HoldsLater(b: seq<char>, c: seq<char>, s: string, at: nat, later: nat)
    requires Holds(b, s, at) && at <= later <= |s| && |c| == |b|
    requires forall i :: later <= i < |b| ==> c[i] == b[i]
    ensures Holds(c, s, later)
  {
  }

  /** skip_whitespace */
  method SkipWhitespace(command: array<char>, str: nat, ghost s: string) returns (p: nat)
    requires Holds(command[..], s, str) && str <= |s|
    ensures p == Skip(s, str)
  {
    p := str;
    while IsWhite(command[p])
      invariant str <= p <= |s| && forall i :: str <= i < p ==> IsWhite(s[i])
      decreases |s| - p
    {
      assert command[..][p] == s[p] || p == |s|;
      p := p + 1;
    }
    SkipIs(s, str, p);
  }

  /** strchr; None stands for NULL. */
  method StrChr(command: array<char>, str: nat, c: char, ghost s: string) returns (p: Option<nat>)
    requires Holds(command[..], s, str) && str <= |s| && c != NUL
    ensures p == if Find(s, str, c) == |s| then None else Some(Find(s, str, c))
  {
    var i := str;
    while command[i] != NUL && command[i] != c
      invariant str <= i <= |s| && forall j :: str <= j < i ==> s[j] != c
      decreases |s| - i
    {
      assert command[..][i] == s[i] || i == |s|;
      i := i + 1;
    }
    FindIs(s, str, c, i);
    if command[i] == NUL {
      return None;
    }
    return Some(i);
  }

  /**
   parseline; exited is set when the arguments array is too small. s is the command as it was given. Behind the None
   that ends the arguments, the array holds nothing of interest.
  */
  method Parseline(command: array<char>, arguments: array<Option<nat>>, ghost s: string) returns (exited: bool, bg: bool)
    requires Holds(command[..], s, 0)
    modifies command, arguments
    ensures exited <==> arguments.Length <= 1
    ensures exited ==> command[..] == old(command[..]) && arguments[..] == old(arguments[..])
    ensures var ts := Scan(s, 0, arguments.Length);
            var count := Count(ts, arguments.Length);
            !exited ==>
              && bg == Background(s, ts, count)
              && var n := if bg && count > 0 then count - 1 else count;
                 n < arguments.Length && arguments[n] == None
                 && forall k :: 0 <= k < n ==> arguments[k] == Some(ts[k].start)
    ensures !exited ==> AreCut(old(command[..]), command[..], Scan(s, 0, arguments.Length))
  {
    hide Scan, IsCut, InOrder, Holds;
    var maxArguments := arguments.Length;
    if maxArguments <= 1 {
      return true, false;
    }
    ghost var ts, b := Scan(s, 0, maxArguments), command[..];
    TokensInOrder(s, 0, maxArguments);
    exited := false;
    var count := Tokenize(command, arguments, s);
    if count == maxArguments {
      count := 0;
    }
    arguments[count] := None;
    if count == 0 {
      return false, true;
    }
    ArgumentStart(s, b, ts, count - 1);
    bg := command[arguments[count - 1].value] == '&';
    if bg {
      count := count - 1;
      arguments[count] := None;
    }
  }

  /** What the first character of an argument is once the command is cut. */
  lemma ArgumentStart(s: string, b: seq<char>, ts: seq<Token>, k: nat)
    requires Holds(b, s, 0) && InOrder(s, ts, 0) && k < |ts|
    ensures var t := ts[k];
            && t.start <= t.end <= |s| < |b|
            && (if IsCut(ts, t.start) then NUL else b[t.start]) == (if t.start < t.end then s[t.start] else NUL)
  {
    if ts[k].closed {
      FirstIsCut(s, ts, k);
    } else {
      LastIsNotCut(s, ts, k);
    }
  }

  /** c is b with the ends of the tokens cut. */
  ghost predicate AreCut(b: seq<char>, c: seq<char>, ts: seq<Token>)
  {
    |c| == |b| && forall i :: 0 <= i < |b| ==> c[i] == if IsCut(ts, i) then NUL else b[i]
  }

  lemma AreCutMore(b: seq<char>, c: seq<char>, d: seq<char>, ts: seq<Token>, t: Token)
    requires AreCut(b, c, ts) && |d| == |c|
    requires forall i :: 0 <= i < |d| ==> d[i] == if t.closed && i == t.end then NUL else c[i]
    ensures AreCut(b, d, ts + [t])
  {
    hide IsCut;
    CutMore(ts, t);
  }

  /** The arguments so far address the tokens so far, all of them with a terminator. */
  ghost predicate Address(arguments: seq<Option<nat>>, ts: seq<Token>)
  {
    |ts| <= |arguments| && forall k :: 0 <= k < |ts| ==> ts[k].closed && arguments[k] == Some(ts[k].start)
  }

  lemma AddressMore(a: seq<Option<nat>>, b: seq<Option<nat>>, ts: seq<Token>, t: Token)
    requires Address(a, ts) && |b| == |a| > |ts| && b[|ts|] == Some(t.start)
    requires forall k :: 0 <= k < |a| && k != |ts| ==> b[k] == a[k]
    ensures t.closed ==> Address(b, ts + [t])
    ensures forall k :: 0 <= k <= |ts| ==> b[k] == Some((ts + [t])[k].start)
  {
  }

  lemma AddressAll(arguments: seq<Option<nat>>, ts: seq<Token>)
    requires Address(arguments, ts)
    ensures |ts| <= |arguments| && !Unmatched(ts) && forall k :: 0 <= k < |ts| ==> arguments[k] == Some(ts[k].start)
  {
  }

  lemma NoneYet(b: seq<char>, arguments: seq<Option<nat>>)
    ensures AreCut(b, b, []) && Address(arguments, [])
  {
  }

  /** The turn of the loop of parseline that finds the token at a position without white space. */
  method NextToken(command: array<char>, arguments: array<Option<nat>>, count: nat, at: nat, ghost s: string)
    returns (quoted: bool, closed: bool, next: nat, ghost t: Token)
    requires at < |s| && Holds(command[..], s, at) && count < arguments.Length
    modifies command, arguments
    ensures t == TokenAt(s, at) && quoted == t.quoted && closed == t.closed
    ensures arguments[count] == Some(t.start)
    ensures forall k :: 0 <= k < arguments.Length && k != count ==> arguments[k] == old(arguments[k])
    ensures forall i :: 0 <= i < command.Length ==> command[i] == if closed && i == t.end then NUL else old(command[i])
    ensures closed ==> next == t.end + 1 <= |s| && Holds(command[..], s, next)
  {
    hide Find, TokenAt, Holds;
    t := TokenAt(s, at);
    ghost var b := command[..];
    HoldsHere(b, s, at);
    quoted := command[at] == '\'';
    var start := at;
    if quoted {
      start := start + 1;
    }
    arguments[count] := Some(start);
    var termch := if quoted then '\'' else ' ';
    HoldsLater(b, command[..], s, at, start);
    var end := StrChr(command, start, termch, s);
    TokenIs(s, at, quoted, start);
    if end == None {
      return quoted, false, 0, t;
    }
    command[end.value] := NUL;
    HoldsLater(b, command[..], s, at, end.value + 1);
    return quoted, true, end.value + 1, t;
  }

  /** The loop of parseline. */
  method Tokenize(command: array<char>, arguments: array<Option<nat>>, ghost s: string) returns (count: nat)
    requires Holds(command[..], s, 0) && arguments.Length > 1
    modifies command, arguments
    ensures var ts := Scan(s, 0, arguments.Length);
            && count == (if Unmatched(ts) then 0 else |ts|) <= arguments.Length
            && forall k :: 0 <= k < count ==> arguments[k] == Some(ts[k].start)
    ensures AreCut(old(command[..]), command[..], Scan(s, 0, arguments.Length))
  {
    hide Scan, Skip, Find, TokenAt, IsCut, IsWhite, Holds, AreCut, Address;
    ghost var ts: seq<Token>, b := [], command[..];
    NoneYet(b, arguments[..]);
    var maxArguments := arguments.Length;
    ghost var all := Scan(s, 0, maxArguments);
    var at := SkipWhitespace(command, 0, s);
    HoldsLater(command[..], command[..], s, 0, at);
    HoldsHere(command[..], s, at);
    SkipTwice(s, 0, maxArguments);
    assert all == ts + Scan(s, at, maxArguments);
    count := 0;
    ghost var ended := false;
    while count < maxArguments && command[at] != NUL
      invariant at <= |s| < command.Length && Holds(command[..], s, at) && (command[at] == NUL <==> at == |s|)
      invariant count == |ts| <= maxArguments && !ended
      invariant all == ts + Scan(s, at, maxArguments - count)
      invariant Address(arguments[..], ts) && AreCut(b, command[..], ts)
      decreases |s| - at
    {
      ghost var from := at;
      at := SkipWhitespace(command, at, s);
      HoldsLater(command[..], command[..], s, from, at);
      HoldsHere(command[..], s, at);
      if count == maxArguments || command[at] == NUL {
        ScanEnd(s, from, maxArguments - count);
        AddressAll(arguments[..], ts);
        ended := true;
        break;
      }
      ScanNext(s, from, maxArguments - count, TokenAt(s, at));
      ghost var args, uncut := arguments[..], command[..];
      var quoted, closed, next, t := NextToken(command, arguments, count, at, s);
      AreCutMore(b, uncut, command[..], ts, t);
      AddressMore(args, arguments[..], ts, t);
      count := count + 1;
      if !closed {
        ts := ts + [t];
        ended := true;
        if quoted {
          count := 0;
        }
        break;
      }
      Append(all, ts, t, Scan(s, t.end + 1, maxArguments - count));
      ts := ts + [t];
      at := next;
      HoldsHere(command[..], s, at);
    }
    if !ended {
      ScanEnd(s, at, maxArguments - count);
      AddressAll(arguments[..], ts);
    }
    assert all == ts;
  }

  // ----- what the arguments say

  /** The C string at position i of a buffer. */
  function StringAt(b: seq<char>, i: nat): string
    requires i < |b|
    decreases |b| - i
  {
    if b[i] == NUL || i + 1 == |b| then "" else [b[i]] + StringAt(b, i + 1)
  }

  lemma {:induction false} StringIs(b: seq<char>, i: nat, j: nat)
    requires i <= j < |b| && b[j] == NUL && forall k :: i <= k < j ==> b[k] != NUL
    ensures StringAt(b, i) == b[i..j]
    decreases j - i
  {
    if i < j {
      StringIs(b, i + 1, j);
      assert b[i..j] == [b[i]] + b[i + 1..j];
    }
  }

  /** Each argument is the text of its token; only blanks and quotes are overwritten. */
  lemma ArgumentsAreTokens(s: string, b: seq<char>, c: seq<char>, maxArguments: nat)
    requires Holds(b, s, 0) && AreCut(b, c, Scan(s, 0, maxArguments))
    ensures var ts := Scan(s, 0, maxArguments);
            && (forall k :: 0 <= k < |ts| ==> ts[k].start <= ts[k].end <= |s| && ts[k].start < |c|
                                              && StringAt(c, ts[k].start) == s[ts[k].start..ts[k].end])
            && (forall j, k :: 0 <= j < k < |ts| ==> ts[j].start < ts[k].start)
            && (forall i :: 0 <= i < |b| ==> c[i] != b[i] ==> c[i] == 0 as char && b[i] in {' ', '\''})
  {
    hide Scan;
    var ts := Scan(s, 0, maxArguments);
    TokensInOrder(s, 0, maxArguments);
    forall k | 0 <= k < |ts| ensures StringAt(c, ts[k].start) == s[ts[k].start..ts[k].end] {
      TokenText(s, b, c, ts, k);
    }
    forall i | 0 <= i < |b| && c[i] != b[i] ensures b[i] in {' ', '\''} {
      var k :| 0 <= k < |ts| && ts[k].closed && ts[k].end == i;
    }
  }

  lemma TokenText(s: string, b: seq<char>, c: seq<char>, ts: seq<Token>, k: nat)
    requires Holds(b, s, 0) && AreCut(b, c, ts) && InOrder(s, ts, 0) && k < |ts|
    ensures ts[k].start <= ts[k].end < |c| && ts[k].end <= |s|
    ensures StringAt(c, ts[k].start) == s[ts[k].start..ts[k].end]
  {
    var i, j := ts[k].start, ts[k].end;
    assert ts[k].closed ==> IsCut(ts, j);
    forall p | i <= p < j ensures c[p] == s[p] && c[p] != NUL {
      assert !IsCut(ts, p);
      assert b[p] == s[p] && s[p] in s;
    }
    assert c[j] == NUL;
    StringIs(c, i, j);
    assert c[i..j] == s[i..j];
  }

  // ----- quoted tokens

  predicate AllWhite(s: string)
  {
    forall i :: 0 <= i < |s| ==> IsWhite(s[i])
  }

  /** Each token in single quotes, with white space, or nothing, in front of it. */
  function PrintTokens(tokens: seq<string>, gaps: seq<string>): string
    requires |gaps| == |tokens|
  {
    if tokens == [] then "" else gaps[0] + "'" + tokens[0] + "'" + PrintTokens(tokens[1..], gaps[1..])
  }

  /** Token t of w is quoted and says text. */
  ghost predicate Says(w: string, t: Token, text: string)
  {
    t.quoted && t.closed && t.start <= t.end <= |w| && w[t.start..t.end] == text
  }

  lemma SaysText(w: string, t: Token, text: string)
    requires Says(w, t, text)
    ensures t.closed && t.start <= t.end <= |w| && w[t.start..t.end] == text
  {
  }

  lemma SaysBackground(w: string, ts: seq<Token>, text: string)
    requires ts != [] && Says(w, ts[|ts| - 1], text)
    ensures Background(w, ts, |ts|) <==> text != "" && text[0] == '&'
  {
  }

  lemma QuotedTokenLayout(pre: string, gap: string, text: string, rest: string)
    requires AllWhite(gap) && '\'' !in text
    ensures var w, p := pre + (gap + "'" + text + "'" + rest), |pre| + |gap|;
            var end := p + 1 + |text|;
            && end < |w| && (forall i :: |pre| <= i < p ==> IsWhite(w[i])) && w[p] == '\'' && w[end] == '\''
            && w[p + 1..end] == text && forall i :: p + 1 <= i < end ==> w[i] != '\''
  {
    var w, p := pre + (gap + "'" + text + "'" + rest), |pre| + |gap|;
    var end := p + 1 + |text|;
    assert forall i :: |pre| <= i < p ==> w[i] == gap[i - |pre|];
    assert w[p + 1..end] == text;
    forall i | p + 1 <= i < end ensures w[i] != '\'' {
      assert w[i] == text[i - p - 1];
    }
  }

  lemma QuotedToken(pre: string, gap: string, text: string, rest: string, room: nat)
    requires AllWhite(gap) && '\'' !in text && room > 0
    ensures var w := pre + (gap + "'" + text + "'" + rest);
            var from := |pre + gap + "'" + text + "'"|;
            var t := Token(from - |text| - 1, from - 1, true, true);
            && from <= |w| && w == (pre + gap + "'" + text + "'") + rest
            && Scan(w, |pre|, room) == [t] + Scan(w, from, room - 1)
            && Says(w, t, text)
  {
    hide Scan, Skip, Find, TokenAt;
    var w, p := pre + (gap + "'" + text + "'" + rest), |pre| + |gap|;
    assert w == (pre + gap + "'" + text + "'") + rest;
    var end := p + 1 + |text|;
    QuotedTokenLayout(pre, gap, text, rest);
    SkipIs(w, |pre|, p);
    FindIs(w, p + 1, '\'', end);
    TokenIs(w, p, true, p + 1);
    ScanNext(w, |pre|, room, Token(p + 1, end, true, true));
  }

  lemma {:induction false} QuotedTokensAreScanned(pre: string, tokens: seq<string>, gaps: seq<string>, tail: string, room: nat)
    requires |gaps| == |tokens| && AllWhite(tail)
    requires forall k :: 0 <= k < |tokens| ==> AllWhite(gaps[k]) && '\'' !in tokens[k]
    ensures var w := pre + (PrintTokens(tokens, gaps) + tail);
            var ts := Scan(w, |pre|, room);
            && |ts| == (if |tokens| < room then |tokens| else room)
            && forall k :: 0 <= k < |ts| ==> Says(w, ts[k], tokens[k])
    decreases |tokens|
  {
    hide Scan, Says, AllWhite;
    var w := pre + (PrintTokens(tokens, gaps) + tail);
    if room == 0 {
      ScanEnd(w, |pre|, room);
    } else if tokens == [] {
      assert w == pre + tail;
      WhiteTail(pre, tail, room);
    } else {
      var rest := PrintTokens(tokens[1..], gaps[1..]) + tail;
      assert PrintTokens(tokens, gaps) + tail == gaps[0] + "'" + tokens[0] + "'" + rest;
      QuotedToken(pre, gaps[0], tokens[0], rest, room);
      QuotedTokensAreScanned(pre + gaps[0] + "'" + tokens[0] + "'", tokens[1..], gaps[1..], tail, room - 1);
    }
  }

  lemma WhiteTail(pre: string, tail: string, room: nat)
    requires AllWhite(tail)
    ensures Scan(pre + tail, |pre|, room) == []
  {
    hide Scan;
    var w := pre + tail;
    assert forall i :: |pre| <= i < |w| ==> w[i] == tail[i - |pre|];
    SkipIs(w, |pre|, |w|);
    ScanEnd(w, |pre|, room);
  }

  /**
   The command-line round trip: quoted tokens are read back as the arguments, if the array has room for them and for the
   NULL behind them; otherwise there are no arguments. They run in the foreground unless the last starts with &.
  */
  lemma CommandRoundTrip(tokens: seq<string>, gaps: seq<string>, tail: string, b: seq<char>, c: seq<char>, maxArguments: nat)
    requires |gaps| == |tokens| > 0 && AllWhite(tail) && maxArguments > 1
    requires forall k :: 0 <= k < |tokens| ==> AllWhite(gaps[k]) && '\'' !in tokens[k]
    requires Holds(b, PrintTokens(tokens, gaps) + tail, 0)
    requires AreCut(b, c, Scan(PrintTokens(tokens, gaps) + tail, 0, maxArguments))
    ensures var s := PrintTokens(tokens, gaps) + tail;
            var ts := Scan(s, 0, maxArguments);
            var count := Count(ts, maxArguments);
            && count == (if |tokens| < maxArguments then |tokens| else 0)
            && (forall k :: 0 <= k < count ==> ts[k].start < |c| && StringAt(c, ts[k].start) == tokens[k])
            && (count > 0 ==>
                  (Background(s, ts, count) <==> tokens[count - 1] != "" && tokens[count - 1][0] == '&'))
  {
    hide Scan, PrintTokens, Holds, AreCut, AllWhite, Background, Says, StringAt, IsWhite;
    var s := PrintTokens(tokens, gaps) + tail;
    assert "" + s == s;
    QuotedTokensAreScanned("", tokens, gaps, tail, maxArguments);
    ArgumentsAreTokens(s, b, c, maxArguments);
    var ts := Scan(s, 0, maxArguments);
    forall k | 0 <= k < |ts| ensures s[ts[k].start..ts[k].end] == tokens[k] && ts[k].closed {
      SaysText(s, ts[k], tokens[k]);
    }
    if |tokens| < maxArguments {
      SaysBackground(s, ts, tokens[|ts| - 1]);
    }
  }

  lemma OpenToken(pre: string, gap: string, text: string, room: nat)
    requires AllWhite(gap) && '\'' !in text && room > 0
    ensures var w := pre + (gap + "'" + text);
            Scan(w, |pre|, room) == [Token(|pre| + |gap| + 1, |w|, true, false)]
  {
    hide Scan, Skip, Find, TokenAt;
    var w, p := pre + (gap + "'" + text), |pre| + |gap|;
    assert forall i :: |pre| <= i < p ==> w[i] == gap[i - |pre|];
    assert w[p] == '\'';
    forall i | p + 1 <= i < |w| ensures w[i] != '\'' {
      assert w[i] == text[i - p - 1];
    }
    SkipIs(w, |pre|, p);
    FindIs(w, p + 1, '\'', |w|);
    TokenIs(w, p, true, p + 1);
    ScanNext(w, |pre|, room, Token(p + 1, |w|, true, false));
  }

  lemma {:induction false} OpenTokenIsLast(pre: string, tokens: seq<string>, gaps: seq<string>, gap: string, text: string, room: nat)
    requires |gaps| == |tokens| && AllWhite(gap) && '\'' !in text
    requires forall k :: 0 <= k < |tokens| ==> AllWhite(gaps[k]) && '\'' !in tokens[k]
    ensures var ts := Scan(pre + (PrintTokens(tokens, gaps) + (gap + "'" + text)), |pre|, room);
            if |tokens| < room then ts != [] && ts[|ts| - 1].quoted && !ts[|ts| - 1].closed else |ts| == room
    decreases |tokens|
  {
    hide Scan, Says, AllWhite;
    var tail := gap + "'" + text;
    if room == 0 {
      ScanEnd(pre + (PrintTokens(tokens, gaps) + tail), |pre|, room);
    } else if tokens == [] {
      assert PrintTokens(tokens, gaps) + tail == tail;
      OpenToken(pre, gap, text, room);
    } else {
      var rest := PrintTokens(tokens[1..], gaps[1..]) + tail;
      assert PrintTokens(tokens, gaps) + tail == gaps[0] + "'" + tokens[0] + "'" + rest;
      QuotedToken(pre, gaps[0], tokens[0], rest, room);
      OpenTokenIsLast(pre + gaps[0] + "'" + tokens[0] + "'", tokens[1..], gaps[1..], gap, text, room - 1);
    }
  }

  /** A quote without its mate, behind any quoted tokens, leaves no arguments at all. */
  lemma UnmatchedQuote(tokens: seq<string>, gaps: seq<string>, gap: string, text: string, maxArguments: nat)
    requires |gaps| == |tokens| && AllWhite(gap) && '\'' !in text
    requires forall k :: 0 <= k < |tokens| ==> AllWhite(gaps[k]) && '\'' !in tokens[k]
    ensures Count(Scan(PrintTokens(tokens, gaps) + (gap + "'" + text), 0, maxArguments), maxArguments) == 0
  {
    hide Scan, PrintTokens, AllWhite;
    var s := PrintTokens(tokens, gaps) + (gap + "'" + text);
    assert "" + s == s;
    OpenTokenIsLast("", tokens, gaps, gap, text, maxArguments);
  }
}
