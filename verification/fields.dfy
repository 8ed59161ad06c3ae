/**
 The field search that the image-flash tool runs over the output of a command:
 lines are read into a fixed buffer, cut into fields in place, and the last
 line whose key field matches supplies the answer.
 */
module Fields {

  datatype Option<T> = None | Some(value: T)

  const NUL: char := '\0'
  const BUFFER_SIZE := 256
  const MAX_FIELDS := 16

  predicate IsDelimiter(c: char) {
    c == ' ' || c == '\t' || c == '\n' || c == '\r'
  }

  // ----- the search, on strings -----

  /** How many characters one read takes: through a newline, to the limit, or
      to the end. */
  function ChunkLength(input: string, limit: nat): (n: nat)
    ensures n <= |input| && n <= limit
    ensures input != [] && limit > 0 ==> n > 0
  {
    if input == [] || limit == 0 then 0
    else if input[0] == '\n' then 1
    else 1 + ChunkLength(input[1..], limit - 1)
  }

  /** A read goes on to the first newline, the limit or the end. */
  lemma {:induction false} ChunkEnds(input: string, limit: nat)
    ensures var n := ChunkLength(input, limit);
            && (forall i :: 0 <= i < n - 1 ==> input[i] != '\n')
            && (n == |input| || n == limit || (n > 0 && input[n - 1] == '\n'))
  {
    if input != [] && limit > 0 && input[0] != '\n' {
      ChunkEnds(input[1..], limit - 1);
      var n := ChunkLength(input[1..], limit - 1);
      assert forall i :: 0 < i < n ==> input[i] == input[1..][i - 1];
    }
  }

  /** The successive contents of the buffer. */
  function Chunks(input: string): seq<string> {
    if input == [] then []
    else
      var n := ChunkLength(input, BUFFER_SIZE - 1);
      [input[..n]] + Chunks(input[n..])
  }

  /** A string as C sees it: up to the first NUL. */
  function Visible(s: string): (v: string)
    ensures NUL !in v && |v| <= |s| && v == s[..|v|]
    ensures |v| == |s| || s[|v|] == NUL
  {
    if s == [] || s[0] == NUL then [] else [s[0]] + Visible(s[1..])
  }

  function TokenLength(s: string): (n: nat)
    ensures n <= |s|
    ensures forall i :: 0 <= i < n ==> !IsDelimiter(s[i])
    ensures n == |s| || IsDelimiter(s[n])
  {
    if s == [] || IsDelimiter(s[0]) then 0 else 1 + TokenLength(s[1..])
  }

  function Tokens(s: string): seq<string> {
    if s == [] then []
    else if IsDelimiter(s[0]) then Tokens(s[1..])
    else [s[..TokenLength(s)]] + Tokens(s[TokenLength(s)..])
  }

  function Take<T>(s: seq<T>, n: nat): seq<T> {
    if |s| <= n then s else s[..n]
  }

  /** The fields of one buffer: at most sixteen. */
  function FieldsOf(chunk: string): seq<string> {
    Take(Tokens(Visible(chunk)), MAX_FIELDS)
  }

  function MatchIn(chunk: string, key: nat, wanted: string, answer: nat): Option<string> {
    var fields := FieldsOf(chunk);
    if key < |fields| && answer < |fields| && fields[key] == wanted then Some(fields[answer]) else None
  }

  function LastMatch(chunks: seq<string>, key: nat, wanted: string, answer: nat): Option<string> {
    if chunks == [] then None
    else
      var later := LastMatch(chunks[1..], key, wanted, answer);
      if later.Some? then later else MatchIn(chunks[0], key, wanted, answer)
  }

  // ----- the search, in place -----

  /** The buffer holds the C string s at offset p. */
  predicate Holds(b: seq<char>, p: nat, s: string) {
    && p + |s| < |b|
    && b[p..p + |s|] == s
    && b[p + |s|] == NUL
    && NUL !in s
  }

  /** A command's output, read once. */
  class Pipe {
    var rest: string
    var atEnd: bool

    constructor (output: string)
      ensures rest == output && !atEnd
    {
      rest := output;
      atEnd := false;
    }

    /** Reads one buffer: false, and no store, if the end comes first. The end
        is noticed only by a read that runs into it. */
    method Fgets(buffer: array<char>) returns (got: bool)
      requires buffer.Length == BUFFER_SIZE
      requires atEnd ==> rest == []
      modifies this, buffer
      ensures got == (old(rest) != [])
      ensures !got ==> atEnd && rest == []
      ensures got ==> var n := ChunkLength(old(rest), BUFFER_SIZE - 1);
                      && rest == old(rest)[n..]
                      && buffer[..n] == old(rest)[..n]
                      && buffer[n] == NUL
                      && 1 <= n <= 255
                      && (forall i :: 0 <= i < n - 1 ==> buffer[i] != '\n')
                      && (buffer[n - 1] == '\n' || n == 255 || rest == [])
      ensures atEnd ==> rest == []
    {
      var n := 0;
      ghost var all := rest;
      var stop := false;
      while n < BUFFER_SIZE - 1 && !stop
        invariant 0 <= n <= BUFFER_SIZE - 1 && n <= |all|
        invariant rest == all[n..]
        invariant buffer[..n] == all[..n]
        invariant !stop ==> ChunkLength(all, BUFFER_SIZE - 1) == n + ChunkLength(rest, BUFFER_SIZE - 1 - n)
        invariant stop ==> ChunkLength(all, BUFFER_SIZE - 1) == n
        invariant stop && n == 0 ==> all == [] && atEnd
        invariant atEnd ==> rest == []
        decreases !stop, BUFFER_SIZE - n
      {
        if rest == [] {
          atEnd := true;
          stop := true;
        } else {
          buffer[n] := rest[0];
          stop := rest[0] == '\n';
          rest := rest[1..];
          n := n + 1;
        }
      }
      got := n > 0;
      if got {
        buffer[n] := NUL;
        ReadEnds(buffer[..], all, n);
      }
    }
  }

  /** A read stops behind a newline, at the limit or at the end. */
  lemma ReadEnds(b: seq<char>, input: string, n: nat)
    requires 1 <= n < |b| && n == ChunkLength(input, BUFFER_SIZE - 1) && b[..n] == input[..n]
    ensures n <= 255
    ensures forall i :: 0 <= i < n - 1 ==> b[i] != '\n'
    ensures b[n - 1] == '\n' || n == 255 || input[n..] == []
  {
    ChunkEnds(input, BUFFER_SIZE - 1);
    assert forall i :: 0 <= i < n ==> b[i] == b[..n][i] == input[..n][i];
  }

  /** What the character at a C string's offset says about the string. */
  lemma HeldAt(b: seq<char>, p: nat, s: string)
    requires Holds(b, p, s)
    ensures b[p] == NUL <==> s == []
    ensures s != [] ==> b[p] == s[0] && Holds(b, p + 1, s[1..])
  {
    if s != [] {
      assert b[p] == b[p..p + |s|][0];
      assert s[0] in s;
    }
  }

  lemma HeldFrom(b: seq<char>, p: nat, s: string, k: nat)
    requires Holds(b, p, s) && k <= |s|
    ensures Holds(b, p + k, s[k..])
  {
    assert b[p + k..p + |s|] == b[p..p + |s|][k..];
  }

  method SkipDelimiters(buffer: array<char>, from: nat, ghost rest: string)
    returns (s: nat, ghost left: string)
    requires Holds(buffer[..], from, rest)
    ensures from <= s && Holds(buffer[..], s, left)
    ensures Tokens(left) == Tokens(rest)
    ensures left != [] ==> !IsDelimiter(left[0])
  {
    s, left := from, rest;
    HeldAt(buffer[..], s, left);
    while buffer[s] != NUL && IsDelimiter(buffer[s])
      invariant from <= s && Holds(buffer[..], s, left)
      invariant Tokens(rest) == Tokens(left)
      invariant buffer[s] == NUL <==> left == []
      invariant left != [] ==> buffer[s] == left[0]
      decreases |left|
    {
      HeldAt(buffer[..], s, left);
      s, left := s + 1, left[1..];
      HeldAt(buffer[..], s, left);
    }
  }

  lemma HeldEverywhere(b: seq<char>, p: nat, s: string)
    requires Holds(b, p, s)
    ensures forall j :: 0 <= j < |s| ==> s[j] == b[p + j] && s[j] != NUL
  {
    forall j | 0 <= j < |s|
      ensures s[j] == b[p + j] && s[j] != NUL
    {
      assert s[j] == b[p..p + |s|][j];
      assert s[j] in s;
    }
  }

  method FindTokenEnd(buffer: array<char>, s: nat, ghost left: string) returns (e: nat)
    requires Holds(buffer[..], s, left)
    ensures e == s + TokenLength(left) < buffer.Length
    ensures buffer[e] == NUL <==> TokenLength(left) == |left|
  {
    HeldEverywhere(buffer[..], s, left);
    ghost var n := TokenLength(left);
    e := s;
    while buffer[e] != NUL && !IsDelimiter(buffer[e])
      invariant s <= e <= s + n
      decreases s + n - e
    {
      assert e == s + |left| || left[e - s] == buffer[e];
      e := e + 1;
    }
    assert e == s + |left| || left[e - s] == buffer[e];
  }

  lemma FirstToken(left: string)
    requires left != [] && !IsDelimiter(left[0])
    ensures var n := TokenLength(left);
            && n > 0
            && Tokens(left) == [left[..n]] + Tokens(left[n..])
            && (n < |left| ==> Tokens(left) == [left[..n]] + Tokens(left[n + 1..]))
  {
    var n := TokenLength(left);
    if n < |left| {
      assert left[n..][1..] == left[n + 1..];
    }
  }

  /** Cutting a C string with a NUL at offset k leaves one C string in front of
      the cut and one behind it. */
  lemma Cut(b: seq<char>, p: nat, s: string, k: nat)
    requires Holds(b, p, s) && k < |s|
    ensures Holds(b[p + k := NUL], p, s[..k])
    ensures Holds(b[p + k := NUL], p + k + 1, s[k + 1..])
  {
    HeldFrom(b, p, s, k + 1);
    var now := b[p + k := NUL];
    assert now[p..p + k] == b[p..p + |s|][..k];
    HeldBeyond(b, now, p + k + 1, s[k + 1..]);
  }

  /** A C string is untouched by stores below it. */
  lemma HeldBeyond(before: seq<char>, now: seq<char>, p: nat, s: string)
    requires Holds(before, p, s) && |now| == |before|
    requires now[p..] == before[p..]
    ensures Holds(now, p, s)
  {
    assert before[p..p + |s|] == before[p..][..|s|];
    assert now[p..p + |s|] == now[p..][..|s|];
    assert before[p + |s|] == before[p..][|s|];
    assert now[p + |s|] == now[p..][|s|];
  }

  /** Cuts the token at s off, and says where to go on. */
  method CutToken(buffer: array<char>, s: nat, ghost left: string) returns (save: nat, ghost after: string)
    requires Holds(buffer[..], s, left)
    requires left != [] && !IsDelimiter(left[0])
    modifies buffer
    ensures var token := left[..TokenLength(left)];
            && Tokens(left) == [token] + Tokens(after)
            && Holds(buffer[..], s, token)
            && s + |token| <= save
    ensures Holds(buffer[..], save, after)
    ensures forall i :: 0 <= i <= s ==> buffer[i] == old(buffer[i])
  {
    FirstToken(left);
    ghost var n := TokenLength(left);
    ghost var b := buffer[..];
    var e := FindTokenEnd(buffer, s, left);
    if buffer[e] == NUL {
      HeldFrom(b, s, left, n);
      assert left[..n] == left;
      save, after := e, left[n..];
    } else {
      buffer[e] := NUL;
      save, after := e + 1, left[n + 1..];
      assert buffer[..] == b[e := NUL];
      Cut(b, s, left, n);
    }
    assert Holds(buffer[..], s, left[..n]) && Holds(buffer[..], save, after);
  }

  /** strtok: skips delimiters from `from`, cuts the token that follows off with
      a NUL, and says where to go on. The C string at `from` is `rest`; what
      is left of it afterwards is `after`. A token of -1 is the null pointer. */
  method Strtok(buffer: array<char>, from: nat, ghost rest: string)
    returns (token: int, save: nat, ghost after: string)
    requires Holds(buffer[..], from, rest)
    modifies buffer
    ensures Tokens(rest) == [] <==> token == -1
    ensures Tokens(rest) != [] ==>
            && from <= token
            && Holds(buffer[..], token, Tokens(rest)[0])
            && token + |Tokens(rest)[0]| <= save
            && Holds(buffer[..], save, after)
            && Tokens(rest)[1..] == Tokens(after)
    ensures forall i :: 0 <= i <= from ==> buffer[i] == old(buffer[i])
  {
    var s;
    ghost var left;
    s, left := SkipDelimiters(buffer, from, rest);
    HeldAt(buffer[..], s, left);
    if buffer[s] == NUL {
      return -1, s, left;
    }
    token := s;
    save, after := CutToken(buffer, s, left);
  }

  // ----- a line -----

  /** The first i table entries point at the first i tokens, all cut off at or
      below limit. */
  predicate TableHolds(b: seq<char>, table: seq<nat>, tokens: seq<string>, i: nat, limit: nat) {
    && i <= |table| && i <= |tokens|
    && forall k :: 0 <= k < i ==> Holds(b, table[k], tokens[k]) && table[k] + |tokens[k]| <= limit
  }

  /** Stores above the limit leave the table's strings alone. */
  lemma TableSurvives(before: seq<char>, now: seq<char>, table: seq<nat>, tokens: seq<string>,
                      i: nat, limit: nat, limit': nat)
    requires TableHolds(before, table, tokens, i, limit) && |now| == |before|
    requires forall j :: 0 <= j <= limit && j < |now| ==> now[j] == before[j]
    requires limit <= limit'
    ensures TableHolds(now, table, tokens, i, limit')
  {
    forall k | 0 <= k < i
      ensures Holds(now, table[k], tokens[k])
    {
      var p, s := table[k], tokens[k];
      assert now[p..p + |s|] == before[p..p + |s|];
    }
  }

  /** The loop that fills the field table: offsets of the first sixteen tokens. */
  method SplitFields(buffer: array<char>, fields: array<nat>, ghost line: string) returns (i: nat)
    requires fields.Length == MAX_FIELDS && Holds(buffer[..], 0, line)
    modifies buffer, fields
    ensures i == |Take(Tokens(line), MAX_FIELDS)|
    ensures forall k :: 0 <= k < i ==> Holds(buffer[..], fields[k], Tokens(line)[k])
  {
    ghost var tokens := Tokens(line);
    var ptr, save;
    ghost var after;
    ptr, save, after := Strtok(buffer, 0, line);
    i := 0;
    ghost var limit := 0;
    while i < MAX_FIELDS && ptr != -1
      invariant 0 <= i <= |tokens| && i <= MAX_FIELDS
      invariant ptr == -1 <==> i == |tokens|
      invariant TableHolds(buffer[..], fields[..], tokens, i, limit)
      invariant ptr != -1 ==>
                && 0 <= ptr && limit <= save
                && Holds(buffer[..], ptr, tokens[i])
                && ptr + |tokens[i]| <= save
                && Holds(buffer[..], save, after)
                && tokens[i + 1..] == Tokens(after)
      decreases MAX_FIELDS - i
    {
      fields[i] := ptr;
      limit := save;
      assert TableHolds(buffer[..], fields[..], tokens, i + 1, limit);
      ghost var before := buffer[..];
      ptr, save, after := Strtok(buffer, save, after);
      TableSurvives(before, buffer[..], fields[..], tokens, i + 1, limit, limit);
      i := i + 1;
    }
  }

  /** strcmp, for equality. */
  method SameString(buffer: array<char>, p: nat, wanted: string, ghost s: string) returns (same: bool)
    requires Holds(buffer[..], p, s) && NUL !in wanted
    ensures same == (s == wanted)
  {
    var k := 0;
    HeldFrom(buffer[..], p, s, 0);
    HeldAt(buffer[..], p, s[0..]);
    while buffer[p + k] != NUL && k < |wanted| && buffer[p + k] == wanted[k]
      invariant k <= |s| && k <= |wanted| && s[..k] == wanted[..k]
      invariant buffer[p + k] == NUL <==> k == |s|
      invariant k < |s| ==> buffer[p + k] == s[k]
      decreases |s| - k
    {
      k := k + 1;
      HeldFrom(buffer[..], p, s, k);
      HeldAt(buffer[..], p + k, s[k..]);
    }
    same := buffer[p + k] == NUL && k == |wanted|;
  }

  /** strdup: the string itself, free of the buffer. */
  method Duplicate(buffer: array<char>, p: nat, ghost s: string) returns (copy: string)
    requires Holds(buffer[..], p, s)
    ensures copy == s
  {
    copy := [];
    HeldFrom(buffer[..], p, s, 0);
    HeldAt(buffer[..], p, s[0..]);
    while buffer[p + |copy|] != NUL
      invariant |copy| <= |s| && copy == s[..|copy|]
      invariant buffer[p + |copy|] == NUL <==> |copy| == |s|
      invariant |copy| < |s| ==> buffer[p + |copy|] == s[|copy|]
      decreases |s| - |copy|
    {
      copy := copy + [buffer[p + |copy|]];
      HeldFrom(buffer[..], p, s, |copy|);
      HeldAt(buffer[..], p + |copy|, s[|copy|..]);
    }
  }

  /** What the loop does with one buffer. */
  method SearchBuffer(buffer: array<char>, fields: array<nat>, ghost line: string,
                      key: nat, wanted: string, answer: nat, found: Option<string>)
    returns (result: Option<string>)
    requires fields.Length == MAX_FIELDS && Holds(buffer[..], 0, line) && NUL !in wanted
    modifies buffer, fields
    ensures var here := Take(Tokens(line), MAX_FIELDS);
            result == if key < |here| && answer < |here| && here[key] == wanted then Some(here[answer]) else found
  {
    result := found;
    var i := SplitFields(buffer, fields, line);
    if key < i && answer < i {
      var same := SameString(buffer, fields[key], wanted, Tokens(line)[key]);
      if same {
        var copy := Duplicate(buffer, fields[answer], Tokens(line)[answer]);
        result := Some(copy);
      }
    }
  }

  lemma VisibleIsHeld(b: seq<char>, n: nat, chunk: string)
    requires n < |b| && b[..n] == chunk && b[n] == NUL
    ensures Holds(b, 0, Visible(chunk))
  {
    var v := Visible(chunk);
    assert b[..|v|] == b[..n][..|v|];
    if |v| < n {
      assert b[|v|] == b[..n][|v|];
    }
  }

  lemma ReadSplits(input: string)
    requires input != []
    ensures var n := ChunkLength(input, BUFFER_SIZE - 1);
            n > 0 && Chunks(input) == [input[..n]] + Chunks(input[n..])
  {
  }

  /** The whole search. Field numbers count from 1; no output at all is a pipe
      that could not be opened. */
  method GetField(output: Option<string>, matchField: int, matchString: string, returnField: int)
    returns (result: Option<string>)
    requires matchField >= 1 && returnField >= 1 && NUL !in matchString
    ensures output.None? ==> result.None?
    ensures output.Some? ==>
            result == LastMatch(Chunks(output.value), matchField - 1, matchString, returnField - 1)
    ensures output.Some? && EveryLineFits(output.value) ==>
            result == LastMatch(Lines(output.value), matchField - 1, matchString, returnField - 1)
    ensures forall table :: ProperTable(table) && output == Some(Text(table)) ==>
              IsTableAnswer(table, matchField - 1, matchString, returnField - 1, result)
  {
    result := None;
    var key, answer := matchField - 1, returnField - 1;
    if output.None? {
      return;
    }
    ChunksAreLinesIff(output.value);
    var pipe := new Pipe(output.value);
    var buffer := new char[BUFFER_SIZE];
    var fields := new nat[MAX_FIELDS];
    while !pipe.atEnd
      invariant pipe.atEnd ==> pipe.rest == []
      invariant LastMatch(Chunks(output.value), key, matchString, answer) ==
                var later := LastMatch(Chunks(pipe.rest), key, matchString, answer);
                if later.Some? then later else result
      decreases !pipe.atEnd, |pipe.rest|
    {
      ghost var input := pipe.rest;
      var got := pipe.Fgets(buffer);
      if got {
        ReadSplits(input);
        ghost var n := ChunkLength(input, BUFFER_SIZE - 1);
        VisibleIsHeld(buffer[..], n, input[..n]);
        result := SearchBuffer(buffer, fields, Visible(input[..n]), key, matchString, answer, result);
        assert Chunks(input)[1..] == Chunks(pipe.rest);
      }
    }
    forall table | ProperTable(table) && output == Some(Text(table))
      ensures IsTableAnswer(table, key, matchString, answer, result)
    {
      SearchOfTable(table, key, matchString, answer);
    }
  }

  // ----- what the search means -----

  /** The answer comes from the last buffer that matches; there is none exactly
      when no buffer matches. */
  lemma {:induction false} LastMatchIff(chunks: seq<string>, key: nat, wanted: string, answer: nat)
    ensures LastMatch(chunks, key, wanted, answer).None? <==>
            forall k :: 0 <= k < |chunks| ==> MatchIn(chunks[k], key, wanted, answer).None?
    ensures forall k | 0 <= k < |chunks| && MatchIn(chunks[k], key, wanted, answer).Some?
                       && (forall j :: k < j < |chunks| ==> MatchIn(chunks[j], key, wanted, answer).None?) ::
            LastMatch(chunks, key, wanted, answer) == MatchIn(chunks[k], key, wanted, answer)
  {
    if chunks == [] {
    } else {
      var later := chunks[1..];
      LastMatchIff(later, key, wanted, answer);
      forall k | 0 <= k < |later|
        ensures later[k] == chunks[k + 1]
      {
      }
      if LastMatch(later, key, wanted, answer).None? {
        assert forall k :: 0 < k < |chunks| ==> chunks[k] == later[k - 1];
      } else {
        var k :| 0 <= k < |later| && MatchIn(later[k], key, wanted, answer).Some?;
        assert chunks[k + 1] == later[k];
      }
      forall k | 0 <= k < |chunks| && MatchIn(chunks[k], key, wanted, answer).Some?
                 && (forall j :: k < j < |chunks| ==> MatchIn(chunks[j], key, wanted, answer).None?)
        ensures LastMatch(chunks, key, wanted, answer) == MatchIn(chunks[k], key, wanted, answer)
      {
        if k > 0 {
          assert later[k - 1] == chunks[k];
          assert forall j :: k - 1 < j < |later| ==> later[j] == chunks[j + 1];
        } else {
          assert forall j :: 0 <= j < |later| ==> later[j] == chunks[j + 1];
        }
      }
    }
  }

  /** A field number past sixteen never matches anything. */
  lemma {:induction false} NoFieldPastSixteen(chunks: seq<string>, key: nat, wanted: string, answer: nat)
    requires key >= 16 || answer >= 16
    ensures LastMatch(chunks, key, wanted, answer).None?
  {
    if chunks == [] {
    } else {
      NoFieldPastSixteen(chunks[1..], key, wanted, answer);
    }
  }

  function Weave(gaps: seq<string>, tokens: seq<string>): string
    requires |gaps| == |tokens| + 1
  {
    if tokens == [] then gaps[0] else gaps[0] + tokens[0] + Weave(gaps[1..], tokens[1..])
  }

  /** Blanks, tabs, newlines and carriage returns only. */
  predicate AllDelimiters(s: string) {
    forall i :: 0 <= i < |s| ==> s[i] in " \t\n\r"
  }

  predicate IsToken(s: string) {
    s != [] && forall i :: 0 <= i < |s| ==> s[i] !in " \t\n\r"
  }

  /** Tokens between gaps of delimiters; only the outer gaps may be empty. */
  predicate Separated(gaps: seq<string>, tokens: seq<string>) {
    && |gaps| == |tokens| + 1
    && (forall k :: 0 <= k < |gaps| ==> AllDelimiters(gaps[k]))
    && (forall k :: 0 <= k < |tokens| ==> IsToken(tokens[k]))
    && (forall k :: 0 < k < |tokens| ==> gaps[k] != [])
  }

  lemma {:induction false} SkipGap(gap: string, rest: string)
    requires AllDelimiters(gap)
    ensures Tokens(gap + rest) == Tokens(rest)
  {
    if gap == [] {
      assert gap + rest == rest;
    } else {
      SkipGap(gap[1..], rest);
      assert (gap + rest)[1..] == gap[1..] + rest;
    }
  }

  lemma {:induction false} LengthOfToken(token: string, rest: string)
    requires forall i :: 0 <= i < |token| ==> !IsDelimiter(token[i])
    requires rest == [] || IsDelimiter(rest[0])
    ensures TokenLength(token + rest) == |token|
  {
    if token == [] {
      assert token + rest == rest;
    } else {
      assert (token + rest)[1..] == token[1..] + rest;
      LengthOfToken(token[1..], rest);
    }
  }

  lemma WeaveStartsWithGap(gaps: seq<string>, tokens: seq<string>)
    requires Separated(gaps, tokens)
    requires gaps[0] != [] || tokens == []
    ensures Weave(gaps, tokens) == [] || IsDelimiter(Weave(gaps, tokens)[0])
  {
  }

  /** Tokenising undoes weaving: any tokens in any gaps come back. */
  lemma {:induction false} TokensOfWeave(gaps: seq<string>, tokens: seq<string>)
    requires Separated(gaps, tokens)
    ensures Tokens(Weave(gaps, tokens)) == tokens
  {
    if tokens == [] {
      SkipGap(gaps[0], []);
      assert gaps[0] + [] == gaps[0];
    } else {
      var rest := Weave(gaps[1..], tokens[1..]);
      TokensOfWeave(gaps[1..], tokens[1..]);
      assert gaps[0] + tokens[0] + rest == gaps[0] + (tokens[0] + rest);
      SkipGap(gaps[0], tokens[0] + rest);
      WeaveStartsWithGap(gaps[1..], tokens[1..]);
      LengthOfToken(tokens[0], rest);
      assert (tokens[0] + rest)[..|tokens[0]|] == tokens[0];
      assert (tokens[0] + rest)[|tokens[0]|..] == rest;
    }
  }

  /** The gaps that tokenising throws away. */
  function Gaps(s: string): (gaps: seq<string>)
    ensures |gaps| == |Tokens(s)| + 1
  {
    if s == [] then [[]]
    else if IsDelimiter(s[0]) then
      var rest := Gaps(s[1..]);
      [[s[0]] + rest[0]] + rest[1..]
    else [[]] + Gaps(s[TokenLength(s)..])
  }

  /** Every string is the weave of its tokens and its gaps. */
  lemma {:induction false} WeaveOfTokens(s: string)
    ensures Separated(Gaps(s), Tokens(s))
    ensures Weave(Gaps(s), Tokens(s)) == s
    ensures s != [] && IsDelimiter(s[0]) ==> Gaps(s)[0] != []
    decreases |s|
  {
    if s == [] {
    } else if IsDelimiter(s[0]) {
      WeaveOfTokens(s[1..]);
      WidenFirstGap(s[0], Gaps(s[1..]), Tokens(s[1..]));
    } else {
      var n := TokenLength(s);
      WeaveOfTokens(s[n..]);
      CutIsToken(s, n);
      PrependToken(s[..n], Gaps(s[n..]), Tokens(s[n..]));
      assert s[..n] + s[n..] == s;
    }
  }

  /** The characters that end a token are the four that never occur in one. */
  lemma DelimitersIff(c: char)
    ensures (forall s, token :: token in Tokens(s) ==> c !in token) <==> c in " \t\n\r"
    ensures Tokens(['a', c, 'b']) == ["a", "b"] <==> c in " \t\n\r"
  {
    if c in " \t\n\r" {
      TokensOfWeave(["", [c], ""], ["a", "b"]);
      assert Weave([[c], ""], ["b"]) == [c] + "b" by {
        assert Weave([[c], ""][1..], ["b"][1..]) == "";
      }
      assert ["", [c], ""][1..] == [[c], ""] && ["a", "b"][1..] == ["b"];
      assert Weave(["", [c], ""], ["a", "b"]) == ['a', c, 'b'];
      forall s, token | token in Tokens(s)
        ensures c !in token
      {
        WeaveOfTokens(s);
      }
    } else {
      OneToken([c]);
      OneToken(['a', c, 'b']);
      assert [c] in Tokens([c]) && c in [c];
    }
  }

  lemma OneToken(token: string)
    requires IsToken(token)
    ensures Tokens(token) == [token]
  {
    LengthOfToken(token, []);
    assert token + [] == token && token[..|token|] == token;
  }

  lemma CutIsToken(s: string, n: nat)
    requires s != [] && !IsDelimiter(s[0]) && n == TokenLength(s)
    ensures IsToken(s[..n])
    ensures n < |s| ==> IsDelimiter(s[n..][0])
    ensures |s[n..]| < |s|
  {
  }

  lemma WidenFirstGap(c: char, gaps: seq<string>, tokens: seq<string>)
    requires Separated(gaps, tokens) && IsDelimiter(c)
    ensures var wider := [[c] + gaps[0]] + gaps[1..];
            Separated(wider, tokens) && Weave(wider, tokens) == [c] + Weave(gaps, tokens)
  {
    var first, rest := gaps[0], gaps[1..];
    var wider := [[c] + first] + rest;
    assert wider[1..] == rest;
    assert AllDelimiters([c] + first);
    forall k | 0 <= k < |wider|
      ensures AllDelimiters(wider[k])
    {
      assert k > 0 ==> wider[k] == gaps[k];
    }
    if tokens != [] {
      var tail := Weave(rest, tokens[1..]);
      assert [c] + first + tokens[0] + tail == [c] + (first + tokens[0] + tail);
    }
  }

  lemma PrependToken(token: string, gaps: seq<string>, tokens: seq<string>)
    requires Separated(gaps, tokens) && IsToken(token)
    requires tokens != [] ==> gaps[0] != []
    ensures Separated([[]] + gaps, [token] + tokens)
    ensures Weave([[]] + gaps, [token] + tokens) == token + Weave(gaps, tokens)
  {
    assert ([[]] + gaps)[1..] == gaps;
    assert ([token] + tokens)[1..] == tokens;
    assert [] + token == token;
  }

  // ----- buffers and lines -----

  /** Length of the first line, its newline included. */
  function LineLength(input: string): (n: nat)
    ensures n <= |input|
    ensures input != [] ==> n > 0
  {
    if input == [] then 0 else if input[0] == '\n' then 1 else 1 + LineLength(input[1..])
  }

  lemma {:induction false} LineEnds(input: string)
    ensures var n := LineLength(input);
            && (forall i :: 0 <= i < n - 1 ==> input[i] != '\n')
            && (n == |input| || (n > 0 && input[n - 1] == '\n'))
  {
    if input != [] && input[0] != '\n' {
      LineEnds(input[1..]);
      var n := LineLength(input[1..]);
      assert forall i :: 0 < i < n ==> input[i] == input[1..][i - 1];
    }
  }

  function Lines(input: string): seq<string> {
    if input == [] then []
    else [input[..LineLength(input)]] + Lines(input[LineLength(input)..])
  }

  lemma {:induction false} ChunkIsCappedLine(input: string, limit: nat)
    ensures ChunkLength(input, limit) == if LineLength(input) <= limit then LineLength(input) else limit
  {
    if input == [] || limit == 0 || input[0] == '\n' {
    } else {
      ChunkIsCappedLine(input[1..], limit - 1);
    }
  }

  /** Nothing is lost between buffers. */
  lemma {:induction false} ChunksCoverInput(input: string)
    ensures Flatten(Chunks(input)) == input
    decreases |input|
  {
    if input == [] {
    } else {
      var n := ChunkLength(input, BUFFER_SIZE - 1);
      ChunksCoverInput(input[n..]);
      assert input == input[..n] + input[n..];
    }
  }

  function Flatten(parts: seq<string>): string {
    if parts == [] then [] else parts[0] + Flatten(parts[1..])
  }

  /** A line ends at its newline. */
  lemma LinesBreakAtNewline(s: string, rest: string)
    requires '\n' !in s
    ensures Lines(s + "\n" + rest) == [s + "\n"] + Lines(rest)
  {
    var input := s + "\n" + rest;
    var n := LineLength(input);
    LineEnds(input);
    assert input[|s|] == '\n';
    assert forall i :: 0 <= i < |s| ==> input[i] == s[i];
    assert input[..|s| + 1] == s + "\n" && input[|s| + 1..] == rest;
  }

  /** A part of a text: its only newline is its last character, which it is
      unless the part may stop short of one. */
  predicate IsPart(part: string, mayStop: bool) {
    && part != []
    && '\n' !in part[..|part| - 1]
    && (mayStop || part[|part| - 1] == '\n')
  }

  /** Where the buffers are broken: at newlines and after 255 characters. */
  lemma {:induction false} ChunksBreakAtNewlines(input: string)
    ensures forall k :: 0 <= k < |Chunks(input)| ==>
              && |Chunks(input)[k]| <= 255
              && IsPart(Chunks(input)[k], k == |Chunks(input)| - 1 || |Chunks(input)[k]| == 255)
    decreases |input|
  {
    if input != [] {
      var n := ChunkLength(input, BUFFER_SIZE - 1);
      var rest := Chunks(input[n..]);
      ChunkEnds(input, BUFFER_SIZE - 1);
      ChunksBreakAtNewlines(input[n..]);
      assert Chunks(input) == [input[..n]] + rest;
      assert n == |input| ==> rest == [];
      forall k | 0 <= k < |Chunks(input)|
        ensures |Chunks(input)[k]| <= 255
        ensures IsPart(Chunks(input)[k], k == |Chunks(input)| - 1 || |Chunks(input)[k]| == 255)
      {
        if k > 0 {
          assert Chunks(input)[k] == rest[k - 1];
        }
      }
    }
  }

  /** The lines, broken at newlines only. */
  lemma {:induction false} LinesBreakAtNewlines(input: string)
    ensures forall k :: 0 <= k < |Lines(input)| ==> IsPart(Lines(input)[k], k == |Lines(input)| - 1)
    decreases |input|
  {
    if input != [] {
      var n := LineLength(input);
      var rest := Lines(input[n..]);
      LineEnds(input);
      LinesBreakAtNewlines(input[n..]);
      assert Lines(input) == [input[..n]] + rest;
      forall k | 0 <= k < |Lines(input)|
        ensures IsPart(Lines(input)[k], k == |Lines(input)| - 1)
      {
        if k > 0 {
          assert Lines(input)[k] == rest[k - 1];
        }
      }
    }
  }

  /** Every line, newline included, leaves room for the NUL in the buffer. */
  predicate EveryLineFits(input: string) {
    forall k :: 0 <= k < |Lines(input)| ==> |Lines(input)[k]| <= 255
  }

  /** The search sees whole lines exactly when every line, newline included,
      fits in 255 characters. */
  lemma {:induction false} ChunksAreLinesIff(input: string)
    ensures Chunks(input) == Lines(input) <==> EveryLineFits(input)
    decreases |input|
  {
    if input == [] {
    } else {
      var n, l := ChunkLength(input, BUFFER_SIZE - 1), LineLength(input);
      ChunkIsCappedLine(input, BUFFER_SIZE - 1);
      assert Lines(input)[0] == input[..l] && Chunks(input)[0] == input[..n];
      if n == l {
        ChunksAreLinesIff(input[n..]);
        assert Lines(input)[1..] == Lines(input[n..]) && Chunks(input)[1..] == Chunks(input[n..]);
        assert forall k :: 0 < k < |Lines(input)| ==> Lines(input)[k] == Lines(input[n..])[k - 1];
        assert forall k :: 0 <= k < |Lines(input[n..])| ==> Lines(input[n..])[k] == Lines(input)[k + 1];
      } else {
        assert |Chunks(input)[0]| != |Lines(input)[0]|;
      }
    }
  }

  lemma {:induction false} NoNewline(s: string)
    requires '\n' !in s
    ensures LineLength(s) == |s|
  {
    if s != [] {
      NoNewline(s[1..]);
    }
  }

  lemma OneLine(s: string)
    requires s != [] && '\n' !in s
    ensures Lines(s) == [s]
  {
    NoNewline(s);
    assert s[..|s|] == s && s[|s|..] == [];
  }

  /** A key, 254 blanks and a value, all on one line: the line has the value
      beside the key, but the buffer ends between them and the search answers
      nothing. */
  lemma LongLineExample(blanks: string)
    requires |blanks| == BUFFER_SIZE - 2 && forall i :: 0 <= i < |blanks| ==> blanks[i] == ' '
    ensures var output := "k" + blanks + "v";
            && LastMatch(Lines(output), 0, "k", 1) == Some("v")
            && LastMatch(Chunks(output), 0, "k", 1) == None
  {
    var output := "k" + blanks + "v";
    WholeLine(blanks);
    SplitLine(blanks);
    NoNewline(output);
    ChunkIsCappedLine(output, BUFFER_SIZE - 1);
    assert output[..BUFFER_SIZE - 1] == "k" + blanks;
    assert output[BUFFER_SIZE - 1..] == "v";
    OneLine(output);
    OneLine("v");
    ChunksAreLinesIff("v");
  }

  lemma WholeLine(blanks: string)
    requires blanks != [] && forall i :: 0 <= i < |blanks| ==> blanks[i] == ' '
    ensures FieldsOf("k" + blanks + "v") == ["k", "v"]
  {
    var gaps, tokens := ["", blanks, ""], ["k", "v"];
    TokensOfWeave(gaps, tokens);
    assert Weave(gaps[2..], tokens[2..]) == "";
    assert Weave(gaps[1..], tokens[1..]) == blanks + "v";
    assert Weave(gaps, tokens) == "k" + blanks + "v";
    assert Visible("k" + blanks + "v") == "k" + blanks + "v";
  }

  lemma SplitLine(blanks: string)
    requires blanks != [] && forall i :: 0 <= i < |blanks| ==> blanks[i] == ' '
    ensures FieldsOf("k" + blanks) == ["k"]
  {
    var gaps, tokens := ["", blanks], ["k"];
    TokensOfWeave(gaps, tokens);
    assert Weave(gaps[1..], tokens[1..]) == blanks;
    assert Weave(gaps, tokens) == "k" + blanks;
    assert Visible("k" + blanks) == "k" + blanks;
  }

  // ----- a table of lines -----

  /** A line of a table: its fields, and what stands around them. */
  datatype Row = Row(gaps: seq<string>, fields: seq<string>)

  /** The line without its newline fits in a buffer and is one C string. */
  predicate ProperRow(row: Row) {
    && Separated(row.gaps, row.fields)
    && |Weave(row.gaps, row.fields)| <= 254
    && NUL !in Weave(row.gaps, row.fields)
    && '\n' !in Weave(row.gaps, row.fields)
  }

  predicate ProperTable(table: seq<Row>) {
    forall i :: 0 <= i < |table| ==> ProperRow(table[i])
  }

  /** The rows as a command prints them, each with its newline. */
  function Text(table: seq<Row>): string
    requires ProperTable(table)
  {
    if table == [] then [] else Weave(table[0].gaps, table[0].fields) + "\n" + Text(table[1..])
  }

  /** A row answers if its key field is the wanted one and both fields are
      among the first sixteen. */
  predicate Answers(row: Row, key: nat, wanted: string, answer: nat) {
    && key < |row.fields| && key < 16
    && answer < |row.fields| && answer < 16
    && row.fields[key] == wanted
  }

  /** The answer of the last row that has one. */
  predicate IsTableAnswer(table: seq<Row>, key: nat, wanted: string, answer: nat, result: Option<string>) {
    && ((forall i :: 0 <= i < |table| ==> !Answers(table[i], key, wanted, answer)) ==> result == None)
    && (forall i ::
          && 0 <= i < |table| && Answers(table[i], key, wanted, answer)
          && (forall j :: i < j < |table| ==> !Answers(table[j], key, wanted, answer)) ==>
          result == Some(table[i].fields[answer]))
  }

  /** A newline behind a row is one more delimiter. */
  lemma {:induction false} NewlineIsGap(gaps: seq<string>, fields: seq<string>)
    requires Separated(gaps, fields)
    ensures Tokens(Weave(gaps, fields) + "\n") == fields
  {
    var n := |fields|;
    var wider := gaps[n := gaps[n] + "\n"];
    WeaveWithEnd(gaps, fields, "\n");
    assert AllDelimiters(gaps[n]);
    assert AllDelimiters(gaps[n] + "\n");
    forall k | 0 <= k < |wider|
      ensures AllDelimiters(wider[k])
    {
      assert k < n ==> wider[k] == gaps[k];
    }
    TokensOfWeave(wider, fields);
  }

  lemma {:induction false} WeaveWithEnd(gaps: seq<string>, fields: seq<string>, end: string)
    requires |gaps| == |fields| + 1
    ensures Weave(gaps[|fields| := gaps[|fields|] + end], fields) == Weave(gaps, fields) + end
  {
    var n := |fields|;
    var wider := gaps[n := gaps[n] + end];
    if n > 0 {
      WeaveWithEnd(gaps[1..], fields[1..], end);
      assert wider[1..] == gaps[1..][n - 1 := gaps[1..][n - 1] + end];
      assert wider[0] + fields[0] + (Weave(gaps[1..], fields[1..]) + end) == Weave(gaps, fields) + end;
    }
  }

  /** What a row's line gives, as the search sees it. */
  lemma RowMatch(row: Row, key: nat, wanted: string, answer: nat)
    requires ProperRow(row)
    ensures MatchIn(Weave(row.gaps, row.fields) + "\n", key, wanted, answer) ==
            if Answers(row, key, wanted, answer) then Some(row.fields[answer]) else None
  {
    var line := Weave(row.gaps, row.fields) + "\n";
    NewlineIsGap(row.gaps, row.fields);
    assert NUL !in line;
    assert Visible(line) == line;
  }

  function RowLines(table: seq<Row>): (lines: seq<string>)
    ensures |lines| == |table|
  {
    seq(|table|, i requires 0 <= i < |table| =>
      if |table[i].gaps| == |table[i].fields| + 1 then Weave(table[i].gaps, table[i].fields) + "\n" else [])
  }

  lemma {:induction false} LinesOfTable(table: seq<Row>)
    requires ProperTable(table)
    ensures Lines(Text(table)) == RowLines(table)
    ensures EveryLineFits(Text(table))
  {
    if table != [] {
      LinesOfTable(table[1..]);
      LinesBreakAtNewline(Weave(table[0].gaps, table[0].fields), Text(table[1..]));
      RowLinesStep(table);
    }
    forall k | 0 <= k < |table|
      ensures |RowLines(table)[k]| <= 255
    {
      assert ProperRow(table[k]);
    }
  }

  lemma RowLinesStep(table: seq<Row>)
    requires table != [] && ProperTable(table)
    ensures RowLines(table) == [Weave(table[0].gaps, table[0].fields) + "\n"] + RowLines(table[1..])
  {
    assert ProperRow(table[0]);
  }

  /** The search over any table gives the answer of the last row that has one. */
  lemma SearchOfTable(table: seq<Row>, key: nat, wanted: string, answer: nat)
    requires ProperTable(table)
    ensures IsTableAnswer(table, key, wanted, answer, LastMatch(Chunks(Text(table)), key, wanted, answer))
  {
    var lines := RowLines(table);
    LinesOfTable(table);
    ChunksAreLinesIff(Text(table));
    LastMatchIff(lines, key, wanted, answer);
    forall i | 0 <= i < |table|
      ensures MatchIn(lines[i], key, wanted, answer) ==
              if Answers(table[i], key, wanted, answer) then Some(table[i].fields[answer]) else None
    {
      assert ProperRow(table[i]);
      RowMatch(table[i], key, wanted, answer);
    }
  }

  /** A single line that answers, with its newline behind it. */
  lemma OneRowAnswers(row: Row, key: nat, wanted: string, answer: nat)
    requires ProperRow(row) && Answers(row, key, wanted, answer)
    ensures LastMatch(Chunks(Weave(row.gaps, row.fields) + "\n"), key, wanted, answer) == Some(row.fields[answer])
  {
    var table := [row];
    var line := Weave(row.gaps, row.fields) + "\n";
    assert Text(table) == line + Text(table[1..]);
    assert line + [] == line;
    SearchOfTable(table, key, wanted, answer);
    assert Answers(table[0], key, wanted, answer);
  }

  /** A key that is the last field of its line. */
  lemma KeyAtLineEnd()
    ensures LastMatch(Chunks("a K\n"), 1, "K", 0) == Some("a")
  {
    PairProper('a', 'K');
    OneRowAnswers(Row(["", " ", ""], ["a", "K"]), 1, "K", 0);
    assert "a" + " " + "K" + "\n" == "a K\n";
  }

  lemma PairProper(c: char, d: char)
    requires c !in " \t\n\r\0" && d !in " \t\n\r\0"
    ensures ProperRow(Row(["", " ", ""], [[c], [d]]))
    ensures Weave(["", " ", ""], [[c], [d]]) == [c] + " " + [d]
  {
    var x, y := [c], [d];
    assert Weave(["", " ", ""][1..][1..], [x, y][1..][1..]) == "";
    assert Weave(["", " ", ""][1..], [x, y][1..]) == " " + y;
    assert x + (" " + y) == x + " " + y;
  }
}
