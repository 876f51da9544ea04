/** Splitting a command into its arguments and joining them again (syscalls/ece391emulate.c). */
module Arguments {
  import opened Bytes

  const NAME_PREFIX: seq<Byte> := [46, 47]    // "./"

  predicate Stops(c: Byte) {
    c == NUL || c == SPACE || c == NEWLINE
  }

  /** The length of the word at the start of `s`. */
  function WordLength(s: seq<Byte>): (k: nat)
    ensures k <= |s| && (forall i :: 0 <= i < k ==> !Stops(s[i])) && (k < |s| ==> Stops(s[k]))
  {
    if s == [] || Stops(s[0]) then 0 else 1 + WordLength(s[1..])
  }

  lemma WordLengthIs(s: seq<Byte>, k: nat)
    requires k <= |s| && (forall i :: 0 <= i < k ==> !Stops(s[i])) && (k < |s| ==> Stops(s[k]))
    ensures WordLength(s) == k
  {
  }

  /** The arguments in the text after a program's name. Spaces separate them, however many; so does a newline right
      after a word, but a newline where a word could start ends them. */
  function ArgumentsIn(s: seq<Byte>): seq<seq<Byte>>
    decreases |s|
  {
    if s == [] || s[0] == NEWLINE || s[0] == NUL then []
    else if s[0] == SPACE then ArgumentsIn(s[1..])
    else
      var k := WordLength(s);
      [s[..k]] + (if k == |s| then [] else ArgumentsIn(s[k + 1..]))
  }

  /** What a command is run as. */
  function Tokens(c: seq<Byte>): seq<seq<Byte>> {
    var k := WordLength(c);
    [NAME_PREFIX + c[..k]] + if k == |c| then [] else ArgumentsIn(c[k + 1..])
  }

  /** The arguments with one space between each two. */
  function Joined(args: seq<seq<Byte>>): seq<Byte> {
    JoinedBy(args, SPACE)
  }

  predicate Word(s: seq<Byte>) {
    s != [] && forall i :: 0 <= i < |s| ==> !Stops(s[i])
  }

  predicate Words(args: seq<seq<Byte>>) {
    forall i :: 0 <= i < |args| ==> Word(args[i])
  }

  lemma {:induction false} ArgumentsAreWords(s: seq<Byte>)
    ensures Words(ArgumentsIn(s))
    decreases |s|
  {
    if s != [] && s[0] != NEWLINE && s[0] != NUL {
      if s[0] == SPACE {
        ArgumentsAreWords(s[1..]);
      } else {
        var k := WordLength(s);
        if k < |s| { ArgumentsAreWords(s[k + 1..]); }
        assert Word(s[..k]);
      }
    }
  }

  lemma {:induction false} WordsSurvive(args: seq<seq<Byte>>)
    requires Words(args)
    ensures ArgumentsIn(Joined(args)) == args
    decreases |args|
  {
    if |args| == 1 {
      WordAlone(args[0]);
    } else if args != [] {
      WordFirst(args[0], Joined(args[1..]));
      WordsSurvive(args[1..]);
    }
  }

  lemma WordAlone(w: seq<Byte>)
    requires Word(w)
    ensures ArgumentsIn(w) == [w]
  {
    WordLengthIs(w, |w|);
    assert w[..|w|] == w;
  }

  lemma WordFirst(w: seq<Byte>, rest: seq<Byte>)
    requires Word(w)
    ensures ArgumentsIn(w + [SPACE] + rest) == [w] + ArgumentsIn(rest)
  {
    var s := w + [SPACE] + rest;
    assert forall i :: 0 <= i < |w| ==> s[i] == w[i];
    WordLengthIs(s, |w|);
    assert s[..|w|] == w && s[|w| + 1..] == rest;
  }

  // ---- any text, one byte at a time ----

  predicate OneLine(s: seq<Byte>) {
    Free(s, 0) && Free(s, 10)
  }

  /** A word could start at the end of the text. */
  predicate AtGap(s: seq<Byte>) {
    s == [] || s[|s| - 1] == 32
  }

  /** Split at the end of the first word, or after the first space. */
  lemma SplitHead(s: seq<Byte>)
    requires OneLine(s) && s != [] && s[0] != 32
    ensures var k := WordLength(s);
      && 0 < k <= |s| && (k < |s| ==> s[k] == 32)
      && ArgumentsIn(s) == [s[..k]] + if k == |s| then [] else ArgumentsIn(s[k + 1..])
  {
  }

  /** The text decides its arguments byte by byte: none at first; a space adds nothing; any other byte starts an
      argument at the start of the text and after a space, and belongs to the last argument otherwise. */
  lemma {:induction false} ArgumentsGrow(s: seq<Byte>, c: Byte)
    requires Free(s, 0) && Free(s, 10) && c != 0 && c != 10
    ensures ArgumentsIn([]) == []
    ensures var args := ArgumentsIn(s);
      && (s != [] && s[|s| - 1] != 32 ==> args != [])
      && ArgumentsIn(s + [c]) ==
           if c == 32 then args
           else if s == [] || s[|s| - 1] == 32 then args + [[c]]
           else args[|args| - 1 := args[|args| - 1] + [c]]
    decreases |s|
  {
    hide ArgumentsIn, WordLength;
    NothingToSplit();
    if s == [] {
      assert s + [c] == [c];
      OneByte(c);
    } else if s[0] == 32 {
      SpaceSkipped(s);
      SpaceSkipped(s + [c]);
      assert (s + [c])[1..] == s[1..] + [c];
      ArgumentsGrow(s[1..], c);
    } else {
      SplitHead(s);
      var k := WordLength(s);
      if k < |s| {
        HeadStays(s, c);
        ArgumentsGrow(s[k + 1..], c);
      } else {
        LastWordGrows(s, c);
      }
    }
  }

  lemma NothingToSplit()
    ensures ArgumentsIn([]) == []
  {
  }

  lemma SpaceSkipped(s: seq<Byte>)
    requires s != [] && s[0] == 32
    ensures ArgumentsIn(s) == ArgumentsIn(s[1..])
  {
  }

  /** One more byte behind the first space leaves the first word as it is. */
  lemma HeadStays(s: seq<Byte>, c: Byte)
    requires OneLine(s) && s != [] && s[0] != 32 && WordLength(s) < |s|
    ensures var k := WordLength(s); 0 < k && ArgumentsIn(s + [c]) == [s[..k]] + ArgumentsIn(s[k + 1..] + [c])
  {
    hide ArgumentsIn, WordLength;
    var k, t := WordLength(s), s + [c];
    WordLengthIs(t, k);
    SplitAt(t, k);
    assert t[..k] == s[..k] && t[k + 1..] == s[k + 1..] + [c];
  }

  lemma SplitAt(s: seq<Byte>, k: nat)
    requires s != [] && !Stops(s[0]) && k == WordLength(s)
    ensures 0 < k <= |s| && ArgumentsIn(s) == [s[..k]] + if k == |s| then [] else ArgumentsIn(s[k + 1..])
  {
  }

  lemma OneByte(c: Byte)
    requires c != 0 && c != 10
    ensures ArgumentsIn([c]) == if c == 32 then [] else [[c]]
  {
    assert [c][1..] == [];
    if c != 32 {
      WordLengthIs([c], 1);
      assert [c][..1] == [c];
    }
  }

  lemma LastWordGrows(s: seq<Byte>, c: Byte)
    requires s != [] && WordLength(s) == |s| && c != 0 && c != 10
    ensures ArgumentsIn(s) == [s] && ArgumentsIn(s + [c]) == [if c == 32 then s else s + [c]]
  {
    hide ArgumentsIn, WordLength;
    var t := s + [c];
    WordLengthIs(t, if c == 32 then |s| else |s| + 1);
    SplitAt(s, |s|);
    SplitAt(t, if c == 32 then |s| else |s| + 1);
    NothingToSplit();
    assert s[..|s|] == s && t[..|s|] == s && t[..|t|] == t && t[|s| + 1..] == [];
  }

  /** A newline right after a word separates arguments like a space; one where a word could start ends them, whatever
      follows. */
  lemma {:induction false} NewlineSplits(s: seq<Byte>, rest: seq<Byte>)
    requires Free(s, 0) && Free(s, 10)
    ensures ArgumentsIn(s + [10] + rest) ==
      if s == [] || s[|s| - 1] == 32 then ArgumentsIn(s) else ArgumentsIn(s) + ArgumentsIn(rest)
    decreases |s|
  {
    hide ArgumentsIn, WordLength;
    NothingToSplit();
    if s == [] {
      EndsAtNewline(rest);
      assert s + [10] + rest == [10] + rest;
    } else if s[0] == 32 {
      SpaceSkipped(s);
      SpaceSkipped(s + [10] + rest);
      assert (s + [10] + rest)[1..] == s[1..] + [10] + rest;
      NewlineSplits(s[1..], rest);
    } else {
      SplitHead(s);
      FirstWordStays(s, rest);
      if WordLength(s) < |s| { NewlineSplits(s[WordLength(s) + 1..], rest); }
    }
  }

  lemma EndsAtNewline(rest: seq<Byte>)
    ensures ArgumentsIn([10] + rest) == []
  {
  }

  /** What follows a newline does not change the first word. */
  lemma FirstWordStays(s: seq<Byte>, rest: seq<Byte>)
    requires OneLine(s) && s != [] && s[0] != 32
    ensures var k, t := WordLength(s), s + [10] + rest;
      && 0 < k <= |s|
      && ArgumentsIn(t) == [s[..k]] + ArgumentsIn(if k == |s| then rest else s[k + 1..] + [10] + rest)
  {
    hide ArgumentsIn, WordLength;
    var k, t := WordLength(s), s + [10] + rest;
    WordLengthStays(s, rest);
    SplitAt(t, k);
    assert t[..k] == s[..k];
    assert t[k + 1..] == if k == |s| then rest else s[k + 1..] + [10] + rest;
  }

  lemma WordLengthStays(s: seq<Byte>, rest: seq<Byte>)
    ensures WordLength(s + [10] + rest) == WordLength(s)
  {
    hide WordLength;
    var t := s + [10] + rest;
    assert t[|s|] == 10 && forall i :: 0 <= i < |s| ==> t[i] == s[i];
    WordLengthIs(t, WordLength(s));
  }

  /** The parts laid end to end, and a text without its spaces. */
  function EndToEnd(parts: seq<seq<Byte>>): seq<Byte> {
    if parts == [] then [] else EndToEnd(parts[..|parts| - 1]) + parts[|parts| - 1]
  }

  function WithoutSpaces(s: seq<Byte>): seq<Byte> {
    if s == [] then []
    else WithoutSpaces(s[..|s| - 1]) + if s[|s| - 1] == 32 then [] else [s[|s| - 1]]
  }

  /** Splitting loses the spaces and nothing else. */
  lemma {:induction false} OnlySpacesAreLost(s: seq<Byte>)
    requires Free(s, 0) && Free(s, 10)
    ensures EndToEnd(ArgumentsIn(s)) == WithoutSpaces(s)
    decreases |s|
  {
    if s != [] {
      var n := |s| - 1;
      var args := ArgumentsIn(s[..n]);
      assert s == s[..n] + [s[n]];
      ArgumentsGrow(s[..n], s[n]);
      OnlySpacesAreLost(s[..n]);
      if s[n] != 32 {
        if AtGap(s[..n]) {
          assert (args + [[s[n]]])[..|args|] == args;
        } else {
          var m := |args| - 1;
          assert args[m := args[m] + [s[n]]][..m] == args[..m];
        }
      }
    }
  }

  /** The arguments set into gaps, the first and the last of which may be empty. */
  function Spaced(args: seq<seq<Byte>>, gaps: seq<seq<Byte>>): seq<Byte>
    requires |gaps| == |args| + 1
  {
    if args == [] then gaps[0] else gaps[0] + args[0] + Spaced(args[1..], gaps[1..])
  }

  /** Two bytes of the text stand in one argument exactly when no space is between them: words that are any number of
      spaces apart, but at least one, are found as they are. */
  lemma {:induction false} AnySpacing(args: seq<seq<Byte>>, gaps: seq<seq<Byte>>)
    requires |gaps| == |args| + 1 && Words(args)
    requires forall i, j :: 0 <= i < |gaps| && 0 <= j < |gaps[i]| ==> gaps[i][j] == 32
    requires forall i :: 0 < i < |args| ==> gaps[i] != []
    ensures ArgumentsIn(Spaced(args, gaps)) == args
    decreases |args|
  {
    hide ArgumentsIn, Spaced;
    if args == [] {
      OnlyGap(gaps);
    } else {
      FirstOfSpaced(args, gaps);
      AnySpacing(args[1..], gaps[1..]);
    }
  }

  lemma OnlyGap(gaps: seq<seq<Byte>>)
    requires |gaps| == 1 && forall j :: 0 <= j < |gaps[0]| ==> gaps[0][j] == 32
    ensures ArgumentsIn(Spaced([], gaps)) == []
  {
    SpacesFirst(gaps[0], []);
    assert gaps[0] + [] == gaps[0];
  }

  lemma FirstOfSpaced(args: seq<seq<Byte>>, gaps: seq<seq<Byte>>)
    requires |gaps| == |args| + 1 && args != [] && Word(args[0])
    requires forall i, j :: 0 <= i < |gaps| && 0 <= j < |gaps[i]| ==> gaps[i][j] == 32
    requires |args| > 1 ==> gaps[1] != []
    ensures ArgumentsIn(Spaced(args, gaps)) == [args[0]] + ArgumentsIn(Spaced(args[1..], gaps[1..]))
  {
    var rest := Spaced(args[1..], gaps[1..]);
    assert gaps[0] + (args[0] + rest) == Spaced(args, gaps);
    if |args| == 1 { assert rest == gaps[1]; }
    if rest != [] { SpacedStart(args[1..], gaps[1..]); }
    hide ArgumentsIn, Spaced;
    SpacesFirst(gaps[0], args[0] + rest);
    WordBeforeGap(args[0], rest);
  }

  lemma WordBeforeGap(w: seq<Byte>, rest: seq<Byte>)
    requires Word(w) && (rest != [] ==> rest[0] == 32)
    ensures ArgumentsIn(w + rest) == [w] + ArgumentsIn(rest)
  {
    if rest == [] {
      assert w + rest == w;
      WordAlone(w);
    } else {
      assert w + [SPACE] + rest[1..] == w + rest;
      WordFirst(w, rest[1..]);
    }
  }

  lemma {:induction false} SpacesFirst(gap: seq<Byte>, s: seq<Byte>)
    requires forall j :: 0 <= j < |gap| ==> gap[j] == 32
    ensures ArgumentsIn(gap + s) == ArgumentsIn(s)
    decreases |gap|
  {
    if gap == [] {
      assert gap + s == s;
    } else {
      assert (gap + s)[1..] == gap[1..] + s;
      SpacesFirst(gap[1..], s);
    }
  }

  lemma SpacedStart(args: seq<seq<Byte>>, gaps: seq<seq<Byte>>)
    requires |gaps| == |args| + 1 && Spaced(args, gaps) != [] && (args != [] ==> gaps[0] != [])
    requires forall j :: 0 <= j < |gaps[0]| ==> gaps[0][j] == 32
    ensures Spaced(args, gaps)[0] == 32
  {
  }

  /** A program's name ends at the first space, newline or NUL; it is run with "./" in front of the name. */
  lemma NameIsFirst(name: seq<Byte>, rest: seq<Byte>)
    requires Free(name, 0) && Free(name, 10) && Free(name, 32)
    requires rest != [] ==> rest[0] == 0 || rest[0] == 10 || rest[0] == 32
    ensures Tokens(name + rest) == [[46, 47] + name] + if rest == [] then [] else ArgumentsIn(rest[1..])
  {
    var c := name + rest;
    assert c[..|name|] == name && forall i :: 0 <= i < |name| ==> c[i] == name[i];
    WordLengthIs(c, |name|);
    if rest != [] { assert c[|name| + 1..] == rest[1..]; }
  }

  /** Joining arguments and splitting the result again gives them back exactly when each is a word: not empty and free
      of spaces, newlines and NULs. */
  lemma JoinThenSplit(args: seq<seq<Byte>>)
    ensures ArgumentsIn(Joined(args)) == args <==> Words(args)
  {
    ArgumentsAreWords(Joined(args));
    if Words(args) { WordsSurvive(args); }
  }

  /** A command made of a program's name and joined arguments is run with that name and those arguments. */
  lemma CommandIsSplit(name: seq<Byte>, args: seq<seq<Byte>>)
    requires Word(name) && Words(args)
    ensures Tokens(name + [SPACE] + Joined(args)) == [NAME_PREFIX + name] + args
  {
    var c := name + [SPACE] + Joined(args);
    WordLengthIs(c, |name|);
    assert c[..|name|] == name && c[|name| + 1..] == Joined(args);
    WordsSurvive(args);
  }

  // ---- splitting in place ----

  const NULL := -1

  /** The buffer holds the string `t` at `at`, ended by a NUL no further than `limit`. */
  ghost predicate Holds(b: seq<Byte>, at: int, t: seq<Byte>, limit: nat) {
    && 0 <= at && at + |t| <= limit && at + |t| < |b|
    && b[at..at + |t|] == t && b[at + |t|] == NUL && Free(t, NUL)
  }

  ghost predicate HoldsAll(b: seq<Byte>, args: seq<int>, tokens: seq<seq<Byte>>, limit: nat) {
    |tokens| <= |args| && forall i :: 0 <= i < |tokens| ==> Holds(b, args[i], tokens[i], limit)
  }

  /** The text still to be split: from `scan` to the NUL at `end`. */
  ghost predicate Unread(b: seq<Byte>, scan: nat, end: nat) {
    scan <= end < |b| && b[end] == NUL && forall i :: scan <= i < end ==> b[i] != NUL
  }

  /** Strings already found stay when a NUL is stored at `scan`. */
  lemma HoldsAfter(b: seq<Byte>, args: seq<int>, tokens: seq<seq<Byte>>, scan: nat)
    requires scan < |b| && HoldsAll(b, args, tokens, scan)
    ensures HoldsAll(b[scan := NUL], args, tokens, scan)
  {
  }

  method SkipSpaces(buf: array<Byte>, scan: nat, ghost end: nat) returns (r: nat)
    requires Unread(buf[..], scan, end)
    ensures scan <= r <= end && buf[r] != SPACE
    ensures ArgumentsIn(buf[scan..end]) == ArgumentsIn(buf[r..end])
  {
    r := scan;
    while buf[r] == SPACE
      invariant scan <= r <= end && ArgumentsIn(buf[scan..end]) == ArgumentsIn(buf[r..end])
      decreases end - r
    {
      assert buf[r..end][1..] == buf[r + 1..end];
      r := r + 1;
    }
  }

  method SkipWord(buf: array<Byte>, scan: nat, ghost end: nat) returns (r: nat)
    requires Unread(buf[..], scan, end)
    ensures r == scan + WordLength(buf[scan..end]) && r <= end && Stops(buf[r]) && (buf[r] == NUL <==> r == end)
  {
    r := scan;
    while buf[r] != NUL && buf[r] != SPACE && buf[r] != NEWLINE
      invariant scan <= r <= end && forall i :: scan <= i < r ==> !Stops(buf[i])
      decreases end - r
    {
      r := r + 1;
    }
    WordLengthIs(buf[scan..end], r - scan);
  }

  /** Where reading goes on after a word that ends at `to`. */
  function After(to: nat, end: nat): nat {
    if to == end then end else to + 1
  }

  lemma WordTaken(b: seq<Byte>, from: nat, to: nat, end: nat)
    requires Unread(b, from, end) && !Stops(b[from]) && from < end && to == from + WordLength(b[from..end]) <= end
    ensures var b', t, next := b[to := NUL], b[from..to], After(to, end);
      && from < to && Unread(b', next, end) && Holds(b', from, t, to)
      && ArgumentsIn(b[from..end]) == [t] + ArgumentsIn(b'[next..end])
  {
    var b', t, next := b[to := NUL], b[from..to], After(to, end);
    WordHeld(b, from, to, end);
    hide Unread, Holds, Stops, ArgumentsIn, WordLength;
    var s := b[from..end];
    assert s[..to - from] == t;
    SplitAt(s, to - from);
    if to < end {
      assert s[to - from + 1..] == b'[next..end];
    } else {
      NothingToSplit();
      assert b'[next..end] == [];
    }
  }

  /** The word at the start of the text, once a NUL ends it. */
  lemma WordHeld(b: seq<Byte>, from: nat, to: nat, end: nat)
    requires Unread(b, from, end) && !Stops(b[from]) && from < end && to == from + WordLength(b[from..end]) <= end
    ensures from < to && Unread(b[to := NUL], After(to, end), end) && Holds(b[to := NUL], from, b[from..to], to)
  {
    var b', t := b[to := NUL], b[from..to];
    assert forall i :: 0 <= i < |t| ==> t[i] == b[from..end][i];
    assert b'[from..from + |t|] == t;
  }

  lemma HoldsFurther(b: seq<Byte>, args: seq<int>, tokens: seq<seq<Byte>>, scan: nat, limit: nat)
    requires HoldsAll(b, args, tokens, scan) && scan <= limit
    ensures HoldsAll(b, args, tokens, limit)
  {
  }

  lemma HoldsOneMore(b: seq<Byte>, args: seq<int>, tokens: seq<seq<Byte>>, t: seq<Byte>, at: nat, limit: nat)
    requires HoldsAll(b, args, tokens, limit) && Holds(b, at, t, limit) && |tokens| < |args|
    ensures HoldsAll(b, args[|tokens| := at], tokens + [t], limit)
  {
  }

  /** The loop over the arguments of `ece391_execute`: cuts the text into strings in place and points `args` at them. */
  method SplitArguments(buf: array<Byte>, args: array<int>, start: nat, ghost end: nat, ghost name: seq<Byte>)
    returns (nArg: nat)
    requires buf.Length == 1026 && args.Length == 1024 && 3 <= start && Unread(buf[..], start, end)
    requires HoldsAll(buf[..], args[..], [name], start)
    modifies buf, args
    ensures nArg < 1024 && nArg == |[name] + ArgumentsIn(old(buf[start..end]))|
    ensures HoldsAll(buf[..], args[..], [name] + ArgumentsIn(old(buf[start..end])), end)
  {
    hide HoldsAll, Holds, ArgumentsIn, WordLength;
    ghost var tokens: seq<seq<Byte>>, text := [name], buf[..];
    nArg := 1;
    assert text[start..end] == buf[start..end];
    var scan := start;
    while true
      invariant start <= scan && Unread(buf[..], scan, end) && HoldsAll(buf[..], args[..], tokens, scan)
      invariant nArg == |tokens| <= scan - 2
      invariant tokens + ArgumentsIn(buf[scan..end]) == [name] + ArgumentsIn(text[start..end])
      decreases end - scan
    {
      var from := SkipSpaces(buf, scan, end);
      HoldsFurther(buf[..], args[..], tokens, scan, from);
      scan := from;
      if buf[scan] == NUL || buf[scan] == NEWLINE {
        NothingLeft(buf[..], scan, end);
        HoldsAfter(buf[..], args[..], tokens, scan);
        buf[scan] := NUL;
        HoldsFurther(buf[..], args[..], tokens, scan, end);
        assert tokens + [] == tokens;
        break;
      }
      var to := SkipWord(buf, scan, end);
      ghost var b := buf[..];
      assert b[from..end] == buf[from..end];
      WordTaken(b, from, to, end);
      HoldsFurther(b, args[..], tokens, from, to);
      HoldsAfter(b, args[..], tokens, to);
      HoldsOneMore(b[to := NUL], args[..], tokens, b[from..to], from, to);
      args[nArg] := scan;
      nArg := nArg + 1;
      tokens := tokens + [b[from..to]];
      scan := to;
      if buf[scan] != NUL {
        buf[scan] := NUL;
        scan := scan + 1;
      }
      assert buf[..] == b[to := NUL];
      HoldsFurther(buf[..], args[..], tokens, to, scan);
    }
  }

  lemma NothingLeft(b: seq<Byte>, scan: nat, end: nat)
    requires Unread(b, scan, end) && (b[scan] == NUL || b[scan] == NEWLINE)
    ensures ArgumentsIn(b[scan..end]) == []
  {
  }

  /** `ece391_strcpy` of the command behind "./". */
  method Prepare(c: seq<Byte>, buf: array<Byte>)
    requires buf.Length == 1026 && |c| <= 1023 && Free(c, NUL)
    modifies buf
    ensures buf[..2] == NAME_PREFIX && buf[2..2 + |c|] == c && buf[2 + |c|] == NUL
  {
    buf[0] := 46;
    buf[1] := 47;
    var i := 0;
    while i < |c|
      invariant 0 <= i <= |c| && buf[..2] == NAME_PREFIX && buf[2..2 + i] == c[..i]
    {
      buf[2 + i] := c[i];
      i := i + 1;
    }
    buf[2 + |c|] := NUL;
  }

  /** The splitting done by `ece391_execute`: refuses commands of more than 1023 characters; cuts any other in place
      into strings, the name with "./" in front first, that `args` points to up to a NULL. */
  method Tokenise(command: seq<Byte>) returns (ok: bool, buf: array<Byte>, args: array<int>, nArg: nat)
    requires NUL in command
    ensures ok <==> |CString(command)| <= 1023
    ensures ok ==> nArg < 1024 == args.Length && nArg == |Tokens(CString(command))| && args[nArg] == NULL
    ensures ok ==> forall i :: 0 <= i < nArg ==>
      0 <= args[i] < buf.Length && CString(buf[args[i]..]) == Tokens(CString(command))[i]
  {
    var c := CString(command);
    buf, args, nArg := new Byte[1026](_ => NUL), new int[1024](_ => NULL), 0;
    ok := |c| <= 1023;
    if ok {
      nArg := SplitCommand(c, buf, args);
    }
  }

  method SplitCommand(c: seq<Byte>, buf: array<Byte>, args: array<int>) returns (nArg: nat)
    requires buf.Length == 1026 && args.Length == 1024 && |c| <= 1023 && Free(c, NUL)
    modifies buf, args
    ensures nArg < 1024 && nArg == |Tokens(c)| && args[nArg] == NULL
    ensures forall i :: 0 <= i < nArg ==> 0 <= args[i] < buf.Length && CString(buf[args[i]..]) == Tokens(c)[i]
  {
    Prepare(c, buf);
    ghost var end := 2 + |c|;
    ghost var b := buf[..];
    PreparedText(b, c);
    var scan := SkipWord(buf, 2, end);
    ghost var name := b[..scan];
    args[0] := 0;
    nArg := 1;
    NameHeldAlone(b, args[..], c, scan);
    TextBehindName(b, c, scan);
    hide Tokens, ArgumentsIn, WordLength, HoldsAll, Unread;
    if buf[scan] != NUL {
      buf[scan] := NUL;
      scan := scan + 1;
      assert buf[..] == b[scan - 1 := NUL];
      nArg := SplitArguments(buf, args, scan, end, name);
    }
    args[nArg] := NULL;
    StringsFound(buf[..], args[..], Tokens(c), end);
  }

  lemma NameHeldAlone(b: seq<Byte>, args: seq<int>, c: seq<Byte>, to: nat)
    requires |b| == 1026 && |c| <= 1023 && Free(c, NUL) && |args| > 0 && args[0] == 0
    requires b[..2] == NAME_PREFIX && b[2..2 + |c|] == c && 2 <= to <= 2 + |c|
    ensures HoldsAll(b[to := NUL], args, [b[..to]], to)
  {
  }

  /** The name is the first string; the text behind it is still to be split. */
  lemma TextBehindName(b: seq<Byte>, c: seq<Byte>, to: nat)
    requires |b| == 1026 && |c| <= 1023 && Free(c, NUL)
    requires b[..2] == NAME_PREFIX && b[2..2 + |c|] == c && b[2 + |c|] == NUL && to == 2 + WordLength(c)
    ensures var next := After(to, 2 + |c|);
      && Unread(b[to := NUL], next, 2 + |c|)
      && Tokens(c) == [b[..to]] + if to == 2 + |c| then [] else ArgumentsIn(b[to := NUL][next..2 + |c|])
  {
    hide ArgumentsIn, WordLength, Unread, Tokens;
    RestUnread(b, c, to);
    TokensAre(c, to - 2, b[..to], b[to := NUL][After(to, 2 + |c|)..2 + |c|]);
  }

  lemma TokensAre(c: seq<Byte>, k: nat, name: seq<Byte>, rest: seq<Byte>)
    requires k == WordLength(c) && name == NAME_PREFIX + c[..k] && (k < |c| ==> rest == c[k + 1..])
    ensures Tokens(c) == [name] + if k == |c| then [] else ArgumentsIn(rest)
  {
    hide ArgumentsIn, WordLength;
  }

  lemma RestUnread(b: seq<Byte>, c: seq<Byte>, to: nat)
    requires |b| == 1026 && |c| <= 1023 && Free(c, NUL)
    requires b[..2] == NAME_PREFIX && b[2..2 + |c|] == c && b[2 + |c|] == NUL && to == 2 + WordLength(c)
    ensures var b', next := b[to := NUL], After(to, 2 + |c|);
      && Unread(b', next, 2 + |c|) && b[..to] == NAME_PREFIX + c[..to - 2]
      && (to < 2 + |c| ==> b'[next..2 + |c|] == c[to - 1..])
  {
    PreparedText(b, c);
    assert forall i :: 2 <= i < 2 + |c| ==> b[i] == c[i - 2];
  }

  lemma StringsFound(b: seq<Byte>, args: seq<int>, tokens: seq<seq<Byte>>, limit: nat)
    requires HoldsAll(b, args, tokens, limit)
    ensures forall i :: 0 <= i < |tokens| ==> 0 <= args[i] < |b| && CString(b[args[i]..]) == tokens[i]
  {
  }

  lemma PreparedText(b: seq<Byte>, c: seq<Byte>)
    requires |b| == 1026 && |c| <= 1023 && Free(c, NUL)
    requires b[..2] == NAME_PREFIX && b[2..2 + |c|] == c && b[2 + |c|] == NUL
    ensures Unread(b, 2, 2 + |c|)
    ensures var k := WordLength(c); b[..2 + k] == NAME_PREFIX + c[..k]
  {
    hide WordLength;
    assert forall i :: 2 <= i < 2 + |c| ==> b[i] == c[i - 2];
  }

  // ---- joining into a buffer ----

  /** What stands in front of argument `idx`: those before it, each followed by a space. */
  function Front(args: seq<seq<Byte>>, idx: nat): seq<Byte>
    requires idx <= |args|
  {
    if idx == 0 then [] else Joined(args[..idx]) + [SPACE]
  }

  /** `ece391_strcpy`, which stores the ending NUL as well. */
  method Strcpy(buf: array<Byte>, at: nat, s: seq<Byte>)
    requires at + |s| < buf.Length
    modifies buf
    ensures buf[..at + |s|] == old(buf[..at]) + s && buf[at + |s|] == NUL
    ensures forall j :: at + |s| < j < buf.Length ==> buf[j] == old(buf[j])
  {
    var i := 0;
    while i < |s|
      invariant 0 <= i <= |s|
      invariant forall j :: 0 <= j < buf.Length ==> buf[j] == if at <= j < at + i then s[j - at] else old(buf[j])
    {
      buf[at + i] := s[i];
      i := i + 1;
    }
    buf[at + |s|] := NUL;
  }

  /** The first `k` arguments, joined, have `n` bytes. */
  predicate FillsAt(args: seq<seq<Byte>>, k: nat, n: int) {
    k <= |args| && |Joined(args[..k])| == n
  }

  /** Some arguments from the first on, joined, have `n` bytes. */
  predicate Fills(args: seq<seq<Byte>>, n: int) {
    exists k {:trigger FillsAt(args, k, n)} :: 1 <= k <= |args| && FillsAt(args, k, n)
  }

  lemma {:induction false} JoinedFront(args: seq<seq<Byte>>, idx: nat)
    requires idx < |args|
    ensures Joined(args[..idx + 1]) == Front(args, idx) + args[idx]
    decreases idx
  {
    if idx > 0 {
      var rest := args[1..];
      assert args[..idx + 1][1..] == rest[..idx] && args[..idx][1..] == rest[..idx - 1];
      JoinedFront(rest, idx - 1);
      if idx > 1 { assert Joined(args[..idx]) == args[0] + [SPACE] + Joined(rest[..idx - 1]); }
    }
  }

  lemma {:induction false} JoinedGrows(args: seq<seq<Byte>>, j: nat, k: nat)
    requires 1 <= j <= k <= |args|
    ensures |Joined(args[..j])| + (k - j) <= |Joined(args[..k])|
    decreases k
  {
    if j < k {
      JoinedFront(args, k - 1);
      JoinedGrows(args, j, k - 1);
    }
  }

  /** What the next argument decides, when those before it have fewer than `n` bytes and it fills up to `more`. */
  lemma NextArgument(args: seq<seq<Byte>>, idx: nat, n: int, more: nat)
    requires idx < |args| && more == |Front(args, idx)| + |args[idx]| && (idx > 0 ==> |Joined(args[..idx])| < n)
    ensures more == |Joined(args[..idx + 1])| <= |Joined(args)| && (idx + 1 < |args| ==> more < |Joined(args)|)
    ensures more > n ==> !Fills(args, n)
    ensures more == n ==> Fills(args, n)
    ensures more < n && idx + 1 == |args| ==> !Fills(args, n)
  {
    JoinedFront(args, idx);
    JoinedGrows(args, idx + 1, |args|);
    assert args[..|args|] == args;
    hide Joined, Front;
    if more == n { assert FillsAt(args, idx + 1, n); }
    forall k: nat | 1 <= k <= |args| && (more > n || (more < n && idx + 1 == |args|))
      ensures !FillsAt(args, k, n)
    {
      if k <= idx { JoinedGrows(args, k, idx); } else { JoinedGrows(args, idx + 1, k); }
    }
  }

  /** `ece391_getargs` on the arguments after the program's name: succeeds exactly when they fit, joined and ended by a
      NUL, in `nbytes`. Whether it does or not, it stores nothing further than one byte past them, and there a NUL
      exactly when some of the arguments, from the first on, fill the `nbytes` without room for it. */
  method Getargs(args: seq<seq<Byte>>, buf: array<Byte>, nbytes: int) returns (r: int)
    requires nbytes < buf.Length && forall i :: 0 <= i < |args| ==> Free(args[i], NUL)
    modifies buf
    ensures r == if |Joined(args)| + 1 <= nbytes then 0 else -1
    ensures r == 0 ==> buf[..|Joined(args)| + 1] == Joined(args) + [NUL]
    ensures forall i :: 0 <= nbytes < i < buf.Length ==> buf[i] == old(buf[i])
    ensures 0 <= nbytes ==>
      buf[nbytes] ==
        if exists k :: 1 <= k <= |args| && |Joined(args[..k])| == nbytes then 0 else old(buf[nbytes])
    ensures nbytes < 0 ==> buf[..] == old(buf[..])
  {
    hide Fills, FillsAt, Joined, Front;
    FrontIs(args, nbytes);
    FillsIs(args, nbytes);
    var idx, left: int, at := 0, nbytes, 0;
    while idx < |args|
      invariant 0 <= idx <= |args| && (args != [] ==> idx < |args|) && 0 <= at <= buf.Length
      invariant left == nbytes - at && (at > 0 ==> left >= 0)
      invariant buf[..at] == Front(args, idx)
      invariant forall i :: 0 <= nbytes <= i < buf.Length ==> buf[i] == old(buf[i])
      invariant nbytes < 0 ==> at == 0 && buf[..] == old(buf[..])
      decreases |args| - idx
    {
      FrontHas(args, idx);
      JoinedFront(args, idx);
      NextArgument(args, idx, nbytes, at + |args[idx]|);
      var len := |args[idx]|;
      if len > left {
        return -1;
      }
      Strcpy(buf, at, args[idx]);
      at, left, idx := at + len, left - len, idx + 1;
      if idx >= |args| {
        break;
      }
      if left < 1 {
        return -1;
      }
      FrontHas(args, idx);
      buf[at] := SPACE;
      at, left := at + 1, left - 1;
    }
    assert args[..|args|] == args;
    if left < 1 {
      return -1;
    }
    buf[at] := NUL;
    r := 0;
  }

  lemma FillsIs(args: seq<seq<Byte>>, n: int)
    ensures Fills(args, n) <==> exists k :: 1 <= k <= |args| && |Joined(args[..k])| == n
  {
    hide Joined;
    if k :| 1 <= k <= |args| && |Joined(args[..k])| == n {
      assert FillsAt(args, k, n);
    }
  }

  lemma FrontHas(args: seq<seq<Byte>>, idx: nat)
    requires idx <= |args|
    ensures Front(args, idx) == if idx == 0 then [] else Joined(args[..idx]) + [SPACE]
  {
  }

  lemma FrontIs(args: seq<seq<Byte>>, n: int)
    ensures Front(args, 0) == [] && Joined([]) == [] && (args == [] ==> !Fills(args, n))
  {
  }
}
