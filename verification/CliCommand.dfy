/** Command dispatch: matching, counting and tokenizing a command line, and parameter lookup. */
module CliCommand {
  import opened Bytes

  const NUL: byte := 0
  const SPACE: byte := 32

  datatype Span = Span(from: nat, to: nat)

  // ---- Words ------------------------------------------------------------------

  /** First position from p on that is not a space, or the end. */
  function SkipSpaces(s: Octets, p: nat): (q: nat)
    requires p <= |s|
    ensures p <= q <= |s| && (q < |s| ==> s[q] != SPACE)
    decreases |s| - p
  {
    if p < |s| && s[p] == SPACE then SkipSpaces(s, p + 1) else p
  }

  /** First position from p on that is a space, or the end. */
  function WordEnd(s: Octets, p: nat): (q: nat)
    requires p <= |s|
    ensures p <= q <= |s| && (q < |s| ==> s[q] == SPACE)
    ensures p < |s| && s[p] != SPACE ==> p < q
    decreases |s| - p
  {
    if p < |s| && s[p] != SPACE then WordEnd(s, p + 1) else p
  }

  /** The words of s from p on. */
  function Words(s: Octets, p: nat): (w: seq<Span>)
    requires p <= |s|
    decreases |s| - p
  {
    var b := SkipSpaces(s, p);
    if b == |s| then [] else [Span(b, WordEnd(s, b))] + Words(s, WordEnd(s, b))
  }

  /** A maximal run of non-space octets. */
  predicate MaximalRun(s: Octets, w: Span) {
    && w.from < w.to <= |s|
    && (forall i :: w.from <= i < w.to ==> s[i] != SPACE)
    && (w.from > 0 ==> s[w.from - 1] == SPACE)
    && (w.to < |s| ==> s[w.to] == SPACE)
  }

  lemma {:induction false} SkipSpacesSkips(s: Octets, p: nat)
    requires p <= |s|
    ensures forall i :: p <= i < SkipSpaces(s, p) ==> s[i] == SPACE
    decreases |s| - p
  {
    if p < |s| && s[p] == SPACE {
      SkipSpacesSkips(s, p + 1);
    }
  }

  lemma {:induction false} WordEndPasses(s: Octets, p: nat)
    requires p <= |s|
    ensures forall i :: p <= i < WordEnd(s, p) ==> s[i] != SPACE
    decreases |s| - p
  {
    if p < |s| && s[p] != SPACE {
      WordEndPasses(s, p + 1);
    }
  }

  /** The words are exactly the maximal runs, in order of position. */
  lemma {:induction false} WordsAreMaximalRuns(s: Octets, p: nat)
    requires p <= |s| && (p > 0 ==> p == |s| || s[p - 1] == SPACE || s[p] == SPACE)
    ensures forall i :: 0 <= i < |Words(s, p)| ==> p <= Words(s, p)[i].from && MaximalRun(s, Words(s, p)[i])
    ensures forall w :: MaximalRun(s, w) && p <= w.from ==> w in Words(s, p)
    ensures forall i, j :: 0 <= i < j < |Words(s, p)| ==> Words(s, p)[i].to <= Words(s, p)[j].from
    decreases |s| - p
  {
    var b := SkipSpaces(s, p);
    FirstRun(s, p);
    if b < |s| {
      WordsAreMaximalRuns(s, WordEnd(s, b));
      hide SkipSpaces, WordEnd, MaximalRun;
      assert Words(s, p) == [Span(b, WordEnd(s, b))] + Words(s, WordEnd(s, b));
    }
  }

  /** The word found first from p on is the first maximal run there. */
  lemma FirstRun(s: Octets, p: nat)
    requires p <= |s| && (p > 0 ==> p == |s| || s[p - 1] == SPACE || s[p] == SPACE)
    ensures var b := SkipSpaces(s, p);
            if b == |s| then forall w :: MaximalRun(s, w) ==> w.from < p
            else var e := WordEnd(s, b);
                 p <= b < e && MaximalRun(s, Span(b, e))
                 && forall w :: MaximalRun(s, w) && p <= w.from ==> w == Span(b, e) || e <= w.from
  {
    var b := SkipSpaces(s, p);
    SkipSpacesSkips(s, p);
    if b < |s| {
      WordEndPasses(s, b);
      assert b > 0 ==> s[b - 1] == SPACE;
    }
    forall w | MaximalRun(s, w) && p <= w.from
      ensures b < |s| && (w == Span(b, WordEnd(s, b)) || WordEnd(s, b) <= w.from)
    {
      RunFromHere(s, p, w);
    }
  }

  lemma RunFromHere(s: Octets, p: nat, w: Span)
    requires p <= w.from && MaximalRun(s, w)
    ensures var b := SkipSpaces(s, p); b < |s| && (w == Span(b, WordEnd(s, b)) || WordEnd(s, b) <= w.from)
  {
    var b := SkipSpaces(s, p);
    SkipSpacesSkips(s, p);
    assert s[w.from] != SPACE;
    assert b <= w.from < |s|;
    var e := WordEnd(s, b);
    WordEndPasses(s, b);
    if w.from < e {
      var before := if w.from > 0 then w.from - 1 else 0;
      var after := if w.to < |s| then w.to else 0;
      assert b <= before < e ==> s[before] != SPACE;
      assert b <= after < e ==> s[after] != SPACE;
    }
  }

  // ---- Counting -----------------------------------------------------------------

  /** Number of positions from p on where a word ends: a non-space followed by a space or the terminator. */
  function WordEnds(s: Octets, p: nat): nat
    requires p <= |s|
    decreases |s| - p
  {
    if p == |s| then 0
    else WordEnds(s, p + 1) + if s[p] != SPACE && (p + 1 == |s| || s[p + 1] == SPACE) then 1 else 0
  }

  lemma {:induction false} WordEndsCountWords(s: Octets, p: nat)
    requires p <= |s|
    ensures WordEnds(s, p) == |Words(s, p)|
    decreases |s| - p
  {
    if p < |s| {
      WordEndsCountWords(s, p + 1);
      if s[p] == SPACE {
        assert Words(s, p) == Words(s, p + 1);
      } else if p + 1 == |s| || s[p + 1] == SPACE {
        assert WordEnd(s, p + 1) == p + 1;
        assert Words(s, p) == [Span(p, p + 1)] + Words(s, p + 1);
      } else {
        assert SkipSpaces(s, p + 1) == p + 1 && WordEnd(s, p) == WordEnd(s, p + 1);
        assert Words(s, p)[1..] == Words(s, p + 1)[1..];
      }
    }
  }

  /** The NUL-terminated string of n octets in a. */
  predicate CString(a: array<byte>, n: nat)
    reads a
  {
    n < a.Length && a[n] == NUL && forall i :: 0 <= i < n ==> a[i] != NUL
  }

  method GetNumberOfArgs(a: array<byte>, ghost n: nat) returns (argc: nat)
    requires CString(a, n)
    ensures argc == |Words(a[..n], 0)|
  {
    ghost var s := a[..n];
    argc := 0;
    var p := 0;
    while a[p] != NUL
      invariant 0 <= p <= n
      invariant argc + WordEnds(s, p) == WordEnds(s, 0)
      decreases n - p
    {
      assert a[p] == s[p] && (p + 1 < n ==> a[p + 1] == s[p + 1]);
      if a[p] != SPACE && (a[p + 1] == SPACE || a[p + 1] == NUL) {
        argc := argc + 1;
      }
      p := p + 1;
    }
    WordEndsCountWords(s, 0);
  }

  // ---- Tokenizing in place --------------------------------------------------------

  /** strtok_r with a space delimiter, from position p. */
  method Tokenize(a: array<byte>, p: nat, ghost n: nat, ghost s: Octets) returns (token: Option<nat>, next: nat)
    requires p <= n == |s| < a.Length && a[p..n] == s[p..] && a[n] == NUL && NUL !in s
    modifies a
    ensures var b := SkipSpaces(s, p);
            if b == n then token == None && next == n && a[..] == old(a[..])
            else var e := WordEnd(s, b);
                 token == Some(b) && a[..] == old(a[..])[e := NUL] && next == if e == n then n else e + 1
  {
    next := p;
    while a[next] == SPACE
      invariant p <= next <= n && SkipSpaces(s, next) == SkipSpaces(s, p)
      decreases n - next
    {
      assert s[next] == s[p..][next - p];
      next := next + 1;
    }
    assert next < n ==> a[next] == a[p..n][next - p] == s[next];
    if a[next] == NUL { return None, next; }
    token := Some(next);
    ghost var b := next;
    while a[next] != SPACE && a[next] != NUL
      invariant b <= next <= n && WordEnd(s, next) == WordEnd(s, b)
      decreases n - next
    {
      assert a[next] == a[p..n][next - p] == s[next];
      next := next + 1;
    }
    assert next < n ==> a[next] == a[p..n][next - p] == s[next];
    if a[next] == NUL { return; }
    a[next] := NUL;
    next := next + 1;
  }

  /** A registered command name. */
  predicate CommandName(name: Octets) {
    name != [] && SPACE !in name && NUL !in name
  }

  /** The line is the name, or the name followed by a space. */
  predicate Matches(s: Octets, name: Octets) {
    |name| <= |s| && s[..|name|] == name && (|name| < |s| ==> s[|name|] == SPACE)
  }

  lemma Mismatch(s: Octets, name: Octets, j: nat)
    requires j <= |s| && j <= |name| && s[..j] == name[..j]
    requires if j < |name| then j == |s| || s[j] != name[j] else j < |s| && s[j] != SPACE
    ensures !Matches(s, name)
  {
    if j < |name| <= |s| {
      assert s[..|name|][j] == s[j];
    }
  }

  method FindMatchingCommand(a: array<byte>, ghost n: nat, commands: seq<Octets>) returns (k: nat)
    requires CString(a, n) && forall i :: 0 <= i < |commands| ==> CommandName(commands[i])
    ensures k <= |commands| && (k < |commands| ==> Matches(a[..n], commands[k]))
    ensures forall i :: 0 <= i < k ==> !Matches(a[..n], commands[i])
  {
    k := 0;
    while k < |commands|
      invariant k <= |commands|
      invariant forall i :: 0 <= i < k ==> !Matches(a[..n], commands[i])
    {
      var name := commands[k];
      var j := 0;
      while j < |name| && a[j] == name[j]
        invariant 0 <= j <= |name| && j <= n
        invariant a[..j] == name[..j]
      {
        j := j + 1;
      }
      if j == |name| && (a[j] == SPACE || a[j] == NUL) {
        assert a[..n][..j] == name;
        return;
      }
      assert a[..n][..j] == a[..j] && (j < n ==> a[..n][j] == a[j]);
      Mismatch(a[..n], name, j);
      k := k + 1;
    }
  }

  /** A line matches exactly when it does not start with a space and its first word is the command name. */
  lemma FirstWordIsCommand(s: Octets, name: Octets)
    requires CommandName(name)
    ensures Matches(s, name)
            <==> |Words(s, 0)| > 0 && Words(s, 0)[0] == Span(0, |name|) && s[..|name|] == name
  {
    if s != [] {
      var e := WordEnd(s, 0);
      WordEndPasses(s, 0);
      if Matches(s, name) {
        assert s[0] == s[..|name|][0] == name[0];
        assert forall i :: 0 <= i < |name| ==> s[i] == s[..|name|][i] == name[i];
      }
    }
  }

  /** The name alone, and the name followed by a space and anything, match. */
  lemma NameMatches(name: Octets, rest: Octets)
    ensures Matches(name, name) && Matches(name + [32] + rest, name)
  {
    assert name[..|name|] == name;
    assert (name + [32] + rest)[..|name|] == name;
  }

  /** In the buffer b, argv holds the first words w of s as NUL-terminated strings. */
  ghost predicate HoldsWords(b: Octets, s: Octets, w: seq<Span>, argv: seq<nat>) {
    |argv| <= |w| && forall i :: 0 <= i < |argv| ==> HoldsWord(b, s, w[i], argv[i])
  }

  ghost predicate HoldsWord(b: Octets, s: Octets, w: Span, arg: nat) {
    arg == w.from <= w.to <= |s| && w.to < |b| && b[arg..w.to] == s[w.from..w.to] && b[w.to] == NUL
  }

  /** Cutting one more token keeps the earlier ones and adds its own. */
  lemma CutToken(b: Octets, s: Octets, w: seq<Span>, argv: seq<nat>, p: nat)
    requires |argv| < |w| && HoldsWords(b, s, w, argv)
    requires forall i, j :: 0 <= i < j < |w| ==> w[i].to <= w[j].from
    requires var x := w[|argv|]; p <= x.from < x.to <= |s| < |b|
    requires b[p..|s|] == s[p..]
    ensures var x := w[|argv|];
            HoldsWords(b[x.to := NUL], s, w, argv + [x.from])
  {
    var x := w[|argv|];
    var b' := b[x.to := NUL];
    forall i | 0 <= i < |argv| ensures HoldsWord(b', s, w[i], argv[i]) {
      assert HoldsWord(b, s, w[i], argv[i]);
      assert b'[argv[i]..w[i].to] == b[argv[i]..w[i].to];
    }
    assert forall i :: p <= i < |s| ==> b[i] == b[p..|s|][i - p] == s[p..][i - p];
    assert b'[x.from..x.to] == s[x.from..x.to];
    assert HoldsWord(b', s, x, x.from);
  }

  /** argv for a line of argc words; the flag reports a failed assertion of the dispatcher. */
  method TokenizeAll(a: array<byte>, ghost n: nat, argc: nat) returns (argv: seq<nat>, halted: bool)
    requires CString(a, n) && argc == |Words(a[..n], 0)| > 0
    modifies a
    ensures !halted
    ensures var s := old(a[..n]); |argv| == |Words(s, 0)| && HoldsWords(a[..], s, Words(s, 0), argv)
  {
    hide Words, HoldsWord, MaximalRun;
    ghost var s, w := a[..n], Words(a[..n], 0);
    WordsAreMaximalRuns(s, 0);
    argv, halted := [], false;
    var next := 0;
    while |argv| < argc
      invariant |argv| <= argc && 0 <= next <= n && !halted
      invariant a[next..n] == s[next..] && a[n] == NUL
      invariant Words(s, next) == w[|argv|..]
      invariant HoldsWords(a[..], s, w, argv)
      decreases argc - |argv|
    {
      ghost var p, b := next, a[..];
      var token;
      NextWord(s, p, w[|argv|..]);
      token, next := Tokenize(a, next, n, s);
      if token.None? { halted := true; return; }
      CutToken(b, s, w, argv, p);
      Resume(a[..], b, s, p, next);
      argv := argv + [token.value];
    }
    var token;
    NoWord(s, next);
    token, next := Tokenize(a, next, n, s);
    if token.Some? { halted := true; return; }
  }

  lemma NextWord(s: Octets, p: nat, w: seq<Span>)
    requires p <= |s| && Words(s, p) == w && w != []
    ensures var b := SkipSpaces(s, p);
            b < |s| && w[0] == Span(b, WordEnd(s, b))
            && Words(s, if WordEnd(s, b) == |s| then |s| else WordEnd(s, b) + 1) == w[1..]
  {
  }

  lemma NoWord(s: Octets, p: nat)
    requires p <= |s| && Words(s, p) == []
    ensures SkipSpaces(s, p) == |s|
  {
  }

  lemma Resume(b': Octets, b: Octets, s: Octets, p: nat, next: nat)
    requires p <= |s| < |b| == |b'| && SkipSpaces(s, p) < |s| && b[p..|s|] == s[p..] && b[|s|] == NUL
    requires var e := WordEnd(s, SkipSpaces(s, p));
             b' == b[e := NUL] && next == if e == |s| then e else e + 1
    ensures b'[next..|s|] == s[next..] && b'[|s|] == NUL
  {
    assert forall i :: next <= i < |s| ==> b'[i] == b[p..|s|][i - p] == s[i];
  }

  /** Splits a recognised command line into argv, in place. Neither of the dispatcher's assertions fails. */
  method ProcessCommand(a: array<byte>, ghost n: nat, commands: seq<Octets>)
    returns (command: nat, argv: seq<nat>, halted: bool)
    requires CString(a, n) && forall i :: 0 <= i < |commands| ==> CommandName(commands[i])
    modifies a
    ensures !halted && command <= |commands|
    ensures command < |commands| ==>
              var s := old(a[..n]);
              var w := Words(s, 0);
              && Matches(s, commands[command]) && |argv| == |w| && |w| > 0 && w[0] == Span(0, |commands[command]|)
              && s[..|commands[command]|] == commands[command]
              && (forall i :: 0 <= i < command ==> !Matches(s, commands[i]))
              && forall i :: 0 <= i < |w| ==> argv[i] == w[i].from < w[i].to <= |s| < a.Length
                                              && a[argv[i]..w[i].to] == s[w[i].from..w[i].to] && a[w[i].to] == NUL
    ensures command == |commands| ==>
              a[..] == old(a[..]) && forall i :: 0 <= i < |commands| ==> !Matches(a[..n], commands[i])
  {
    argv, halted := [], false;
    command := FindMatchingCommand(a, n, commands);
    if command < |commands| {
      FirstWordIsCommand(a[..n], commands[command]);
      var argc := GetNumberOfArgs(a, n);
      ghost var s, w := a[..n], Words(a[..n], 0);
      WordsAreMaximalRuns(s, 0);
      argv, halted := TokenizeAll(a, n, argc);
      forall i | 0 <= i < |w|
        ensures argv[i] == w[i].from < w[i].to <= |s| < a.Length
                && a[argv[i]..w[i].to] == s[w[i].from..w[i].to] && a[w[i].to] == NUL
      {
        assert MaximalRun(s, w[i]) && HoldsWord(a[..], s, w[i], argv[i]);
        assert a[..][argv[i]..w[i].to] == a[argv[i]..w[i].to];
      }
    }
  }

  // ---- Parameter lookup -------------------------------------------------------------

  /** The i-th word, if there is one. */
  function WordAt(w: seq<Span>, i: nat): Option<Span> {
    if i < |w| then Some(w[i]) else None
  }

  /** The words left after the first k. */
  function From(w: seq<Span>, k: nat): seq<Span> {
    if k <= |w| then w[k..] else []
  }

  lemma FirstRest(s: Octets)
    ensures Words(s, WordEnd(s, 0)) == From(Words(s, 0), if s != [] && s[0] == SPACE then 0 else 1)
  {
  }

  lemma NextRest(s: Octets, e: nat, w: seq<Span>, k: nat)
    requires e <= |s| && Words(s, e) == From(w, k)
    ensures var b := SkipSpaces(s, e);
            if b == |s| then WordAt(w, k) == None
            else WordAt(w, k) == Some(Span(b, WordEnd(s, b))) && Words(s, WordEnd(s, b)) == From(w, k + 1)
  {
    var b := SkipSpaces(s, e);
    if b < |s| {
      assert From(w, k)[0] == Span(b, WordEnd(s, b));
      assert From(w, k)[1..] == Words(s, WordEnd(s, b));
    }
  }

  /** Looks up a parameter by position. On a line that starts with a space the first word already counts
      as parameter 1; otherwise parameter k is argv[k]. */
  method GetParameter(s: Octets, wanted: nat) returns (word: Option<Span>)
    ensures var w := Words(s, 0);
            var k := if s != [] && s[0] == SPACE then wanted - 1 else wanted;
            word == if wanted > 0 && k < |w| then Some(w[k]) else None
  {
    hide Words, From;
    ghost var shift := if s != [] && s[0] == SPACE then 0 else 1;
    ghost var w := Words(s, 0);
    var found, p := 0, 0;
    word := None;
    FirstRest(s);
    while found < wanted
      invariant 0 <= found <= wanted && p <= |s|
      invariant Words(s, WordEnd(s, p)) == From(w, found + shift)
      invariant found == wanted ==> wanted == 0
      decreases wanted - found
    {
      ghost var p0 := p;
      while p < |s| && s[p] != SPACE
        invariant p0 <= p <= |s| && WordEnd(s, p) == WordEnd(s, p0)
      {
        p := p + 1;
      }
      ghost var e := p;
      while p < |s| && s[p] == SPACE
        invariant e <= p <= |s| && SkipSpaces(s, p) == SkipSpaces(s, e)
      {
        p := p + 1;
      }
      NextRest(s, e, w, found + shift);
      if p == |s| { return; }
      found := found + 1;
      if found == wanted {
        ghost var from := p;
        var length := 0;
        while p < |s| && s[p] != SPACE
          invariant from <= p <= |s| && WordEnd(s, p) == WordEnd(s, from) && length == p - from
        {
          length := length + 1;
          p := p + 1;
        }
        return Some(Span(p - length, p));
      }
    }
  }
}
