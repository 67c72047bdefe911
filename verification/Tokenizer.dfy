/** The command-line tokenizer `parseline` of `shlab/tsh.c`. */
module Tokenizer {

  const MAXLINE: nat := 1024
  const MAXARGS: nat := 128
  const NUL: char := '\0'

  // ---- What a line means ----

  /** The line without its leading spaces. */
  function Skip(s: string): (r: string)
    ensures |r| <= |s| && (r != [] ==> r[0] != ' ')
  {
    if s != [] && s[0] == ' ' then Skip(s[1..]) else s
  }

  /** The first index of `c`, or the length. */
  function IndexOf(s: string, c: char): (k: nat)
    ensures k <= |s|
  {
    if s == [] || s[0] == c then 0 else 1 + IndexOf(s[1..], c)
  }

  /** The index is `k` when `c` is at `k`, or `k` is the length, and `c` is nowhere before. */
  lemma {:induction false} IndexOfIs(s: string, c: char, k: nat)
    requires k <= |s| && (k < |s| ==> s[k] == c)
    requires forall j | 0 <= j < k :: s[j] != c
    ensures IndexOf(s, c) == k
  {
    if k > 0 {
      IndexOfIs(s[1..], c, k - 1);
    }
  }

  function Tokens(s: string): seq<string>
    decreases |s|, 1
  {
    TokensAt(Skip(s))
  }

  /** The arguments of a line that does not start with a space; a quote with no partner ends the search. */
  function TokensAt(t: string): seq<string>
    decreases |t|, 0
  {
    if t == [] then []
    else if t[0] == '\'' then
      var k := IndexOf(t[1..], '\'');
      if k == |t| - 1 then [] else [t[1..k + 1]] + Tokens(t[k + 2..])
    else
      var k := IndexOf(t, ' ');
      if k == |t| then [] else [t[..k]] + Tokens(t[k + 1..])
  }

  /** A last argument that starts with '&' asks for the background and is dropped; so does an empty line. */
  function DropAmpersand(args: seq<string>): (seq<string>, bool) {
    if args == [] then ([], true)
    else
      var last := args[|args| - 1];
      if last != [] && last[0] == '&' then (args[..|args| - 1], true) else (args, false)
  }

  /** The arguments of a line and whether the job runs in the background. */
  function Parse(line: string): (seq<string>, bool)
    requires line != []
  {
    DropAmpersand(Tokens(line[..|line| - 1] + " "))
  }

  // ---- Round trip ----

  predicate Bare(a: string) {
    a != [] && ' ' !in a && a[0] != '\''
  }

  function Printed(a: string): string {
    if Bare(a) then a else "'" + a + "'"
  }

  function Terminated(args: seq<string>): string {
    if args == [] then "" else Printed(args[0]) + " " + Terminated(args[1..])
  }

  /** Arguments separated by spaces and ended by a newline. */
  function Line(args: seq<string>): string {
    if args == [] then "\n" else Terminated(args)[..|Terminated(args)| - 1] + "\n"
  }

  ghost predicate Printable(args: seq<string>) {
    forall a | a in args :: Bare(a) || '\'' !in a
  }

  lemma IndexOfAfter(a: string, c: char, rest: string)
    requires c !in a
    ensures IndexOf(a + [c] + rest, c) == |a|
  {
    var s := a + [c] + rest;
    forall j | 0 <= j < |a|
      ensures s[j] != c
    {
      assert s[j] == a[j] && a[j] in a;
    }
    IndexOfIs(s, c, |a|);
  }

  lemma TokensSkipSpace(s: string)
    ensures Tokens(" " + s) == Tokens(s)
  {
    assert (" " + s)[1..] == s;
    assert Skip(" " + s) == Skip(s);
  }

  lemma FirstBare(a: string, rest: string)
    requires Bare(a)
    ensures Tokens(a + " " + rest) == [a] + Tokens(rest)
  {
    var s := a + [' '] + rest;
    assert s[0] == a[0] && a[0] in a;
    assert Tokens(s) == TokensAt(s);
    IndexOfAfter(a, ' ', rest);
    BareToken(s, |a|);
    assert s[..|a|] == a && s[|a| + 1..] == rest;
  }

  /** An argument in quotes need not be followed by a space. */
  lemma FirstQuoted(a: string, rest: string)
    requires '\'' !in a
    ensures Tokens("'" + a + "'" + rest) == [a] + Tokens(rest)
  {
    var s := "'" + a + "'" + rest;
    assert s[0] == '\'' && Tokens(s) == TokensAt(s);
    assert s[1..] == a + ['\''] + rest;
    IndexOfAfter(a, '\'', rest);
    QuotedToken(s, |a|);
    assert |s| > |a| + 1;
    assert s[1..|a| + 1] == a;
    assert s[|a| + 2..] == rest;
  }

  /** A quote with no partner ends the search. */
  lemma UnclosedQuote(s: string)
    requires '\'' !in s
    ensures Tokens("'" + s) == []
  {
    var t := "'" + s;
    assert t[0] == '\'' && Tokens(t) == TokensAt(t) && t[1..] == s;
    IndexOfIs(s, '\'', |s|);
    OpenQuote(t);
  }

  /** One printed argument at the front of a line is read back as that argument. */
  lemma FirstToken(a: string, rest: string)
    requires Bare(a) || '\'' !in a
    ensures Tokens(Printed(a) + " " + rest) == [a] + Tokens(rest)
  {
    if Bare(a) {
      FirstBare(a, rest);
    } else {
      FirstQuoted(a, " " + rest);
      TokensSkipSpace(rest);
      assert "'" + a + "'" + (" " + rest) == Printed(a) + " " + rest;
    }
  }

  lemma {:induction false} TokensOfTerminated(args: seq<string>)
    requires Printable(args)
    ensures Tokens(Terminated(args)) == args
  {
    if args != [] {
      assert forall a | a in args[1..] :: a in args;
      TokensOfTerminated(args[1..]);
      assert args[0] in args;
      FirstToken(args[0], Terminated(args[1..]));
      assert args == [args[0]] + args[1..];
    }
  }

  lemma {:induction false} TerminatedEndsInSpace(args: seq<string>)
    requires args != []
    ensures |Terminated(args)| > 0 && Terminated(args)[|Terminated(args)| - 1] == ' '
  {
    if |args| > 1 {
      TerminatedEndsInSpace(args[1..]);
    } else {
      assert args[1..] == [];
    }
  }

  /**
   * Printing arguments and parsing the line gives them back; the job is a background job exactly when
   * the last argument starts with '&', which is then dropped, or when there is no argument.
   */
  lemma RoundTrip(args: seq<string>)
    requires Printable(args)
    ensures Parse(Line(args)) ==
            if args == [] then ([], true)
            else if args[|args| - 1] != [] && args[|args| - 1][0] == '&' then (args[..|args| - 1], true)
            else (args, false)
  {
    LineEnds(args);
    TokensOfTerminated(args);
    if args == [] {
      TokensSkipSpace("");
    }
  }

  // ---- Any line ----

  /** An argument as a line may hold it: behind some spaces, and either in quotes or up to a space. */
  datatype Item = Item(gap: nat, arg: string, quoted: bool)

  function Spaces(n: nat): string {
    if n == 0 then "" else " " + Spaces(n - 1)
  }

  predicate Proper(e: Item) {
    if e.quoted then '\'' !in e.arg else Bare(e.arg)
  }

  function WrittenItem(e: Item): string {
    Spaces(e.gap) + if e.quoted then "'" + e.arg + "'" else e.arg + " "
  }

  function Written(items: seq<Item>): string {
    if items == [] then "" else WrittenItem(items[0]) + Written(items[1..])
  }

  function Args(items: seq<Item>): seq<string> {
    if items == [] then [] else [items[0].arg] + Args(items[1..])
  }

  /** What may stand behind the last argument: spaces, and perhaps a quote with no partner. */
  ghost predicate Ending(s: string) {
    exists n: nat :: s == Spaces(n) || OpensQuote(s, n)
  }

  ghost predicate OpensQuote(s: string, n: nat) {
    n < |s| && s == Spaces(n) + "'" + s[n + 1..] && '\'' !in s[n + 1..]
  }

  lemma {:induction false} TokensSkipSpaces(n: nat, s: string)
    ensures |Spaces(n)| == n && Tokens(Spaces(n) + s) == Tokens(s)
  {
    if n > 0 {
      TokensSkipSpaces(n - 1, s);
      TokensSkipSpace(Spaces(n - 1) + s);
      assert Spaces(n) + s == " " + (Spaces(n - 1) + s);
    } else {
      assert "" + s == s;
    }
  }

  lemma TokensOfItem(e: Item, rest: string)
    requires Proper(e)
    ensures Tokens(WrittenItem(e) + rest) == [e.arg] + Tokens(rest)
  {
    var body := if e.quoted then "'" + e.arg + "'" else e.arg + " ";
    TokensSkipSpaces(e.gap, body + rest);
    assert WrittenItem(e) + rest == Spaces(e.gap) + (body + rest);
    if e.quoted {
      FirstQuoted(e.arg, rest);
    } else {
      FirstBare(e.arg, rest);
    }
  }

  lemma TokensOfSpaces(n: nat)
    ensures Tokens(Spaces(n)) == []
  {
    TokensSkipSpaces(n, "");
    assert Spaces(n) + "" == Spaces(n);
  }

  lemma TokensOfOpenQuote(s: string, n: nat)
    requires OpensQuote(s, n)
    ensures Tokens(s) == []
  {
    var rest := s[n + 1..];
    TokensSkipSpaces(n, "'" + rest);
    UnclosedQuote(rest);
    assert Spaces(n) + ("'" + rest) == s;
  }

  lemma TokensOfEnding(s: string)
    requires Ending(s)
    ensures Tokens(s) == []
  {
    var n: nat :| s == Spaces(n) || OpensQuote(s, n);
    if OpensQuote(s, n) {
      TokensOfOpenQuote(s, n);
    } else {
      TokensOfSpaces(n);
    }
  }

  /** However the arguments are spaced and quoted, they are what is read back. */
  lemma {:induction false} TokensOfWritten(items: seq<Item>, ending: string)
    requires (forall e | e in items :: Proper(e)) && Ending(ending)
    ensures Tokens(Written(items) + ending) == Args(items)
    decreases |items|
  {
    if items == [] {
      TokensOfEnding(ending);
      assert "" + ending == ending;
    } else {
      TokensOfWritten(items[1..], ending);
      TokensOfItem(items[0], Written(items[1..]) + ending);
      assert Written(items) + ending == WrittenItem(items[0]) + (Written(items[1..]) + ending);
    }
  }

  /** The number of spaces a line starts with. */
  lemma {:induction false} LeadingSpaces(s: string) returns (n: nat)
    ensures n <= |s| && s == Spaces(n) + s[n..] && (n < |s| ==> s[n] != ' ')
  {
    n := 0;
    if s != [] && s[0] == ' ' {
      n := LeadingSpaces(s[1..]);
      n := n + 1;
      assert s == " " + s[1..];
      assert s[1..][n - 1..] == s[n..];
    } else {
      assert s == "" + s[0..];
    }
  }

  /** And every line can be read in this way: with a space for its newline it is some arguments and an ending. */
  lemma {:induction false} EveryLineIsWritten(s: string) returns (items: seq<Item>, ending: string)
    requires s == [] || s[|s| - 1] == ' '
    ensures s == Written(items) + ending && (forall e | e in items :: Proper(e)) && Ending(ending)
    decreases |s|
  {
    var n := LeadingSpaces(s);
    var t := s[n..];
    if t == [] || (t[0] == '\'' && '\'' !in t[1..]) {
      EndsThere(s, n);
      items, ending := [], s;
      assert "" + s == s;
    } else {
      var e, rest := FirstItem(n, t);
      var others;
      others, ending := EveryLineIsWritten(rest);
      WrittenMore(e, others, ending);
      items := [e] + others;
    }
  }

  lemma EndsThere(s: string, n: nat)
    requires n <= |s| && s == Spaces(n) + s[n..] && (s[n..] == [] || (s[n] == '\'' && '\'' !in s[n..][1..]))
    ensures Ending(s)
  {
    if s[n..] == [] {
      assert s == Spaces(n);
    } else {
      assert s[n..] == "'" + s[n + 1..] && s[n..][1..] == s[n + 1..];
      assert OpensQuote(s, n);
    }
  }

  lemma WrittenMore(e: Item, items: seq<Item>, ending: string)
    ensures Written([e] + items) + ending == WrittenItem(e) + (Written(items) + ending)
  {
    assert ([e] + items)[1..] == items;
  }

  lemma FirstItem(gap: nat, t: string) returns (e: Item, rest: string)
    requires t != [] && t[0] != ' ' && t[|t| - 1] == ' ' && (t[0] == '\'' ==> '\'' in t[1..])
    ensures Proper(e) && Spaces(gap) + t == WrittenItem(e) + rest && |rest| < |t| && (rest == [] || rest[|rest| - 1] == ' ')
  {
    if t[0] == '\'' {
      var k := FirstAt(t[1..], '\'');
      e, rest := Item(gap, t[1..][..k], true), t[k + 2..];
      assert t == "'" + e.arg + "'" + rest;
    } else {
      var k := FirstAt(t, ' ');
      e, rest := Item(gap, t[..k], false), t[k + 1..];
      assert t == e.arg + " " + rest;
    }
  }

  lemma {:induction false} FirstAt(s: string, c: char) returns (k: nat)
    requires c in s
    ensures k < |s| && s[k] == c && c !in s[..k]
  {
    k := 0;
    if s[0] != c {
      k := FirstAt(s[1..], c);
      k := k + 1;
      assert s[..k] == [s[0]] + s[1..][..k - 1];
    }
  }

  /** The result of parsing any line, by its arguments as they are written. */
  lemma ParseWritten(line: string) returns (items: seq<Item>, ending: string)
    requires line != []
    ensures line[..|line| - 1] + " " == Written(items) + ending && (forall e | e in items :: Proper(e)) && Ending(ending)
    ensures Parse(line) == DropAmpersand(Args(items))
  {
    items, ending := EveryLineIsWritten(line[..|line| - 1] + " ");
    TokensOfWritten(items, ending);
  }

  /** Spaces in front of a line change nothing. */
  lemma ParseLeadingSpace(line: string)
    requires line != []
    ensures Parse(" " + line) == Parse(line)
  {
    var text := line[..|line| - 1] + " ";
    TokensSkipSpace(text);
    assert (" " + line)[..|line|] + " " == " " + text;
  }

  /** Replacing the newline by a space gives the terminated arguments. */
  lemma LineEnds(args: seq<string>)
    ensures var line := Line(args); line != [] && line[..|line| - 1] + " " == if args == [] then " " + "" else Terminated(args)
  {
    if args != [] {
      TerminatedEndsInSpace(args);
      LastReplaced(Terminated(args));
    } else {
      assert "\n"[..0] + " " == " " + "";
    }
  }

  lemma LastReplaced(t: string)
    requires t != [] && t[|t| - 1] == ' '
    ensures var line := t[..|t| - 1] + "\n"; line[..|line| - 1] + " " == t
  {
    var line := t[..|t| - 1] + "\n";
    assert line[..|line| - 1] == t[..|t| - 1];
    assert t == t[..|t| - 1] + " ";
  }

  // ---- The tokenizer in memory ----

  /** The C string at `p`. */
  function CString(b: seq<char>, p: nat): string
    requires p <= |b|
    decreases |b| - p
  {
    if p == |b| || b[p] == NUL then "" else [b[p]] + CString(b, p + 1)
  }

  lemma {:induction false} CStringIs(b: seq<char>, p: nat, n: nat)
    requires p + n < |b| && b[p + n] == NUL && NUL !in b[p..p + n]
    ensures CString(b, p) == b[p..p + n]
    decreases n
  {
    if n > 0 {
      assert b[p] == b[p..p + n][0];
      assert b[p + 1..p + n] == b[p..p + n][1..];
      CStringIs(b, p + 1, n - 1);
      assert b[p..p + n] == [b[p]] + b[p + 1..p + n];
    }
  }

  /** `strchr` from `p` on, in a string that ends at `end`; -1 is NULL. */
  method StrChr(buf: array<char>, p: nat, c: char, ghost end: nat) returns (r: int)
    requires p <= end < buf.Length && buf[end] == NUL && NUL !in buf[p..end] && c != NUL
    ensures var k := IndexOf(buf[p..end], c); r == if k < end - p then p + k else -1
  {
    var q := p;
    ghost var s := buf[p..end];
    assert forall j | p <= j < end :: buf[j] == s[j - p] && s[j - p] in s;
    while buf[q] != NUL
      invariant p <= q <= end
      invariant forall j | 0 <= j < q - p :: s[j] != c
      decreases end - q
    {
      if buf[q] == c {
        IndexOfIs(s, c, q - p);
        return q;
      }
      q := q + 1;
    }
    IndexOfIs(s, c, end - p);
    return -1;
  }

  /** `while (*buf && (*buf == ' ')) buf++`. */
  method SkipSpaces(buf: array<char>, p: nat, ghost end: nat) returns (q: nat)
    requires p <= end < buf.Length && buf[end] == NUL
    ensures p <= q <= end && buf[q..end] == Skip(buf[p..end])
  {
    q := p;
    while buf[q] == ' '
      invariant p <= q <= end
      invariant Skip(buf[p..end]) == Skip(buf[q..end])
      decreases end - q
    {
      assert buf[q..end][1..] == buf[q + 1..end];
      q := q + 1;
    }
  }

  /** The rest of the line from `p` on is text: it ends with the NUL at `end` and has none before. */
  ghost predicate TextFrom(buf: array<char>, p: nat, end: nat)
    reads buf
  {
    p <= end < buf.Length && buf[end] == NUL && NUL !in buf[p..end]
  }

  lemma LaterText(buf: array<char>, p: nat, q: nat, end: nat)
    requires TextFrom(buf, p, end) && p <= q <= end
    ensures TextFrom(buf, q, end)
  {
    assert buf[q..end] == buf[p..end][q - p..];
  }

  lemma SliceOfSlice(s: seq<char>, p: nat, i: nat, j: nat, end: nat)
    requires p <= i <= j <= end <= |s|
    ensures s[p..end][i - p..j - p] == s[i..j]
  {
    var a, b := s[p..end][i - p..j - p], s[i..j];
    forall x | 0 <= x < j - i
      ensures a[x] == b[x]
    {
      assert a[x] == s[p..end][i - p + x] == s[i + x];
    }
    assert |a| == |b|;
  }

  /** The text from `p` to `end`, cut at `i` and `j`. */
  lemma Slices(buf: array<char>, p: nat, i: nat, j: nat, end: nat)
    requires p <= i <= j < end <= buf.Length
    ensures buf[p..end][i - p..j - p] == buf[i..j] && buf[p..end][j - p + 1..] == buf[j + 1..end]
    ensures buf[p..end][i - p..] == buf[i..end]
  {
    SliceOfSlice(buf[..], p, i, j, end);
    SliceOfSlice(buf[..], p, j + 1, end, end);
    SliceOfSlice(buf[..], p, i, end, end);
    assert buf[p..end] == buf[..][p..end] && buf[i..j] == buf[..][i..j];
    assert buf[j + 1..end] == buf[..][j + 1..end] && buf[i..end] == buf[..][i..end];
  }

  /** The delimiter of a quoted argument, its opening quote at `p`; -1 is NULL. */
  method FindQuote(buf: array<char>, p: nat, ghost end: nat) returns (delim: int)
    requires TextFrom(buf, p, end) && p < end && buf[p] == '\''
    ensures delim == -1 ==> TokensAt(buf[p..end]) == []
    ensures delim != -1 ==> p < delim < end && TokensAt(buf[p..end]) == [buf[p + 1..delim]] + Tokens(buf[delim + 1..end])
  {
    LaterText(buf, p, p + 1, end);
    delim := StrChr(buf, p + 1, '\'', end);
    ghost var t := buf[p..end];
    assert t[1..] == buf[p + 1..end];
    if delim == -1 {
      OpenQuote(t);
    } else {
      Slices(buf, p, p + 1, delim, end);
      QuotedToken(t, delim - p - 1);
    }
  }

  /** The delimiter of an argument that is not quoted; -1 is NULL. */
  method FindSpace(buf: array<char>, p: nat, ghost end: nat) returns (delim: int)
    requires TextFrom(buf, p, end) && (p < end ==> buf[p] != '\'')
    ensures delim == -1 ==> TokensAt(buf[p..end]) == []
    ensures delim != -1 ==> p <= delim < end && TokensAt(buf[p..end]) == [buf[p..delim]] + Tokens(buf[delim + 1..end])
  {
    delim := StrChr(buf, p, ' ', end);
    ghost var t := buf[p..end];
    assert p < end ==> t[0] == buf[p];
    if delim == -1 {
      NoSpace(t);
    } else {
      Slices(buf, p, p, delim, end);
      BareToken(t, delim - p);
    }
  }

  lemma OpenQuote(t: string)
    requires t != [] && t[0] == '\'' && IndexOf(t[1..], '\'') == |t| - 1
    ensures TokensAt(t) == []
  {
  }

  lemma QuotedToken(t: string, k: nat)
    requires t != [] && t[0] == '\'' && k == IndexOf(t[1..], '\'') < |t| - 1
    ensures TokensAt(t) == [t[1..k + 1]] + Tokens(t[k + 2..])
  {
  }

  lemma NoSpace(t: string)
    requires (t != [] ==> t[0] != '\'') && IndexOf(t, ' ') == |t|
    ensures TokensAt(t) == []
  {
  }

  lemma BareToken(t: string, k: nat)
    requires t != [] && t[0] != '\'' && k == IndexOf(t, ' ') < |t|
    ensures TokensAt(t) == [t[..k]] + Tokens(t[k + 1..])
  {
  }

  /** Steps over an opening quote and finds the delimiter of the argument at `p`. */
  method FindDelimiter(buf: array<char>, p: nat, ghost end: nat) returns (q: nat, delim: int)
    requires TextFrom(buf, p, end)
    ensures delim == -1 ==> TokensAt(buf[p..end]) == []
    ensures delim != -1 ==> p <= q <= delim < end && TokensAt(buf[p..end]) == [buf[q..delim]] + Tokens(buf[delim + 1..end])
  {
    if buf[p] == '\'' {
      q := p + 1;
      delim := FindQuote(buf, p, end);
    } else {
      q := p;
      delim := FindSpace(buf, p, end);
    }
  }

  /** Skips spaces, then finds the next argument. */
  method NextArgument(buf: array<char>, p: nat, ghost end: nat) returns (q: nat, delim: int)
    requires TextFrom(buf, p, end)
    ensures delim == -1 ==> Tokens(buf[p..end]) == []
    ensures delim != -1 ==> p <= q <= delim < end && Tokens(buf[p..end]) == [buf[q..delim]] + Tokens(buf[delim + 1..end])
  {
    q := SkipSpaces(buf, p, end);
    LaterText(buf, p, q, end);
    assert q < end ==> buf[q..end][0] == buf[q];
    q, delim := FindDelimiter(buf, q, end);
  }

  /** The string `a` stands at `p` and ends before `limit`. */
  ghost predicate StoredAt(buf: array<char>, p: int, a: string, limit: nat)
    requires limit <= buf.Length
    reads buf
  {
    0 <= p && p + |a| < limit && buf[p..p + |a|] == a && NUL !in a && buf[p + |a|] == NUL
  }

  /** The first pointers of `argv` point at the strings `args`, which all end before `limit`. */
  ghost predicate Stored(buf: array<char>, argv: array<int>, args: seq<string>, limit: nat)
    reads buf, argv
  {
    |args| <= argv.Length && limit <= buf.Length && forall k | 0 <= k < |args| :: StoredAt(buf, argv[k], args[k], limit)
  }

  lemma StoredStrings(buf: array<char>, argv: array<int>, args: seq<string>, limit: nat)
    requires Stored(buf, argv, args, limit)
    ensures forall k | 0 <= k < |args| :: 0 <= argv[k] <= buf.Length && CString(buf[..], argv[k]) == args[k]
  {
    forall k | 0 <= k < |args|
      ensures CString(buf[..], argv[k]) == args[k]
    {
      CStringIs(buf[..], argv[k], |args[k]|);
    }
  }

  /** `argv[argc++] = buf; *delim = '\0'`. */
  method StoreArgument(buf: array<char>, argv: array<int>, argc: nat, q: nat, delim: nat, ghost end: nat, ghost args: seq<string>)
    requires argc == |args| && Stored(buf, argv, args, q) && TextFrom(buf, q, end) && q <= delim < end && |args| < argv.Length
    modifies buf, argv
    ensures Stored(buf, argv, args + [old(buf[q..delim])], delim + 1) && TextFrom(buf, delim + 1, end)
    ensures buf[delim + 1..end] == old(buf[delim + 1..end])
  {
    ghost var token := buf[q..delim];
    assert token == buf[q..end][..delim - q];
    EndArgument(buf, argv, q, delim, end, args);
    argv[argc] := q;
  }

  method EndArgument(buf: array<char>, argv: array<int>, q: nat, delim: nat, ghost end: nat, ghost args: seq<string>)
    requires Stored(buf, argv, args, q) && TextFrom(buf, q, end) && q <= delim < end
    modifies buf
    ensures Stored(buf, argv, args, q) && TextFrom(buf, delim + 1, end)
    ensures buf[q..delim] == old(buf[q..delim]) && buf[delim] == NUL && buf[delim + 1..end] == old(buf[delim + 1..end])
  {
    LaterText(buf, q, delim + 1, end);
    buf[delim] := NUL;
  }

  /** `strcpy(buf, cmdline)`, and the newline replaced by a space. */
  method CopyLine(buf: array<char>, cmdline: string)
    requires 0 < |cmdline| < buf.Length && NUL !in cmdline
    modifies buf
    ensures TextFrom(buf, 0, |cmdline|) && buf[..|cmdline|] == cmdline[..|cmdline| - 1] + " "
  {
    for i := 0 to |cmdline|
      invariant buf[..i] == cmdline[..i]
    {
      buf[i] := cmdline[i];
    }
    buf[|cmdline|] := NUL;
    buf[|cmdline| - 1] := ' ';
    ghost var n := |cmdline| - 1;
    assert buf[..n] == cmdline[..n] && buf[..n + 1] == buf[..n] + [' '];
    assert forall c | c in cmdline[..n] :: c in cmdline;
    assert buf[0..n + 1] == buf[..n + 1];
  }

  /** What is left of the line once the delimiter of the argument at `q` is found. */
  ghost function Remaining(buf: array<char>, q: nat, delim: int, end: nat): seq<string>
    requires delim == -1 || (q <= delim < end < buf.Length)
    reads buf
  {
    if delim == -1 then [] else [buf[q..delim]] + Tokens(buf[delim + 1..end])
  }

  /** One round of the loop that builds `argv`: the argument found is stored, the next one looked for. */
  method TakeArgument(buf: array<char>, argv: array<int>, argc: nat, q: nat, delim: nat, ghost end: nat, ghost args: seq<string>)
    returns (q': nat, delim': int)
    requires argc == |args| < argv.Length && Stored(buf, argv, args, q) && TextFrom(buf, q, end) && q <= delim < end
    modifies buf, argv
    ensures delim' != -1 ==> delim < q' <= delim' < end && TextFrom(buf, q', end)
    ensures Stored(buf, argv, args + [old(buf[q..delim])], if delim' == -1 then buf.Length else q')
    ensures Remaining(buf, q', delim', end) == old(Tokens(buf[delim + 1..end]))
  {
    ghost var rest := buf[delim + 1..end];
    StoreArgument(buf, argv, argc, q, delim, end, args);
    assert buf[delim + 1..end] == rest;
    q', delim' := NextArgument(buf, delim + 1, end);
    if delim' != -1 {
      LaterText(buf, delim + 1, q', end);
    }
  }

  /** The loop that builds `argv`; the result is the number of arguments. */
  method Split(buf: array<char>, argv: array<int>, ghost end: nat) returns (argc: nat)
    requires TextFrom(buf, 0, end) && |Tokens(buf[0..end])| < argv.Length
    modifies buf, argv
    ensures argc == |Tokens(old(buf[0..end]))| && Stored(buf, argv, Tokens(old(buf[0..end])), buf.Length)
  {
    ghost var all := Tokens(buf[0..end]);
    ghost var args: seq<string> := [];
    argc := 0;
    var q, delim := NextArgument(buf, 0, end);
    if delim != -1 {
      LaterText(buf, 0, q, end);
    }
    while delim != -1
      invariant argc == |args| && 0 <= q && end < buf.Length
      invariant delim == -1 || (q <= delim < end && TextFrom(buf, q, end))
      invariant Stored(buf, argv, args, if delim == -1 then buf.Length else q)
      invariant all == args + Remaining(buf, q, delim, end)
      decreases if delim == -1 then 0 else 1 + end - delim
    {
      ghost var token := buf[q..delim];
      Regroup(args, token, Tokens(buf[delim + 1..end]));
      q, delim := TakeArgument(buf, argv, argc, q, delim, end, args);
      argc := argc + 1;
      args := args + [token];
    }
    assert all == args;
  }

  lemma Regroup(args: seq<string>, a: string, rest: seq<string>)
    ensures args + ([a] + rest) == args + [a] + rest
  {
  }

  /** `parseline`; in `argv`, -1 is NULL. */
  method ParseLine(buf: array<char>, cmdline: string, argv: array<int>) returns (argc: nat, bg: bool)
    requires buf.Length == MAXLINE && argv.Length == MAXARGS && buf as object != argv
    requires 0 < |cmdline| < MAXLINE && NUL !in cmdline
    requires |Tokens(cmdline[..|cmdline| - 1] + " ")| < MAXARGS
    modifies buf, argv
    ensures bg == Parse(cmdline).1 && Holds(buf, argv, argc, Parse(cmdline).0)
  {
    CopyLine(buf, cmdline);
    ghost var args := Tokens(cmdline[..|cmdline| - 1] + " ");
    assert buf[0..|cmdline|] == buf[..|cmdline|];
    argc := Split(buf, argv, |cmdline|);
    argc, bg := Background(buf, argv, argc, args);
  }

  /** `argv` points at exactly the strings `args`, and NULL follows them. */
  ghost predicate Holds(buf: array<char>, argv: array<int>, argc: nat, args: seq<string>)
    reads buf, argv
  {
    && argc == |args| < argv.Length && argv[argc] == -1
    && forall k | 0 <= k < argc :: 0 <= argv[k] <= buf.Length && CString(buf[..], argv[k]) == args[k]
  }

  /** The end of `parseline`: a last argument that starts with '&' is dropped. */
  method Background(buf: array<char>, argv: array<int>, n: nat, ghost args: seq<string>) returns (argc: nat, bg: bool)
    requires buf as object != argv && n == |args| < argv.Length && Stored(buf, argv, args, buf.Length)
    modifies argv
    ensures bg == DropAmpersand(args).1 && Holds(buf, argv, argc, DropAmpersand(args).0)
  {
    argc := n;
    argv[argc] := -1;
    StoredStrings(buf, argv, args, buf.Length);
    if argc == 0 {
      return 0, true;
    }
    FirstChar(buf, argv[argc - 1], args[argc - 1]);
    bg := buf[argv[argc - 1]] == '&';
    if bg {
      argc := argc - 1;
      argv[argc] := -1;
    }
  }

  lemma FirstChar(buf: array<char>, p: int, a: string)
    requires 0 <= p && p + |a| < buf.Length && buf[p..p + |a|] == a && buf[p + |a|] == NUL
    ensures buf[p] == '&' <==> a != [] && a[0] == '&'
  {
    if a != [] {
      assert a[0] == buf[p..p + |a|][0];
    }
  }
}
