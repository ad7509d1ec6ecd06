/** The vote ledger that internal/governance/workflow.go keeps in the comment column of a review:
    how decide appends a line, and how countApprovals and hasPriorVoteByDecider read it back. */
module Ledger {
  import opened Text

  // ----- The ledger's text -----

  /** strings.Split(s, "\n"): always at least one line. */
  function Lines(s: string): (lines: seq<string>)
    ensures |lines| > 0
  {
    Split(s, '\n')
  }

  // ----- The ledger -----

  predicate IsUuidChar(c: char) {
    '0' <= c <= '9' || 'a' <= c <= 'f' || c == '-'
  }

  /** The textual form of a uuid. */
  type Uuid = s: string | |s| == 36 && forall i | 0 <= i < 36 :: IsUuidChar(s[i])
    witness seq(36, i => '0')

  datatype Vote = Vote(decider: Uuid, reject: bool, comment: string)

  const APPROVED: string := "[approved by "
  const REJECTED: string := "[rejected by "

  function Word(reject: bool): string {
    if reject then REJECTED else APPROVED
  }

  function Header(decider: Uuid, reject: bool): string {
    Word(reject) + decider + "]"
  }

  function VoteLine(v: Vote): string {
    Header(v.decider, v.reject) + " " + v.comment
  }

  /** combinedComment: the ledger after one more vote. */
  function Append(ledger: string, v: Vote): string {
    TrimSpace(ledger + ("\n" + VoteLine(v)))
  }

  function LedgerOf(votes: seq<Vote>): string {
    if |votes| == 0 then "" else Append(LedgerOf(votes[..|votes| - 1]), votes[|votes| - 1])
  }

  /** A line that the readers take for a token line. */
  predicate Marks(line: string, token: string) {
    token <= TrimSpace(line)
  }

  function CountMarked(lines: seq<string>, token: string): nat {
    if |lines| == 0 then 0
    else CountMarked(lines[..|lines| - 1], token) + if Marks(lines[|lines| - 1], token) then 1 else 0
  }

  /** The line a vote adds, and how many lines a reader counts. */
  lemma VoteLineExactly(decider: Uuid, comment: string)
    ensures VoteLine(Vote(decider, false, comment)) == "[approved by " + decider + "] " + comment
    ensures VoteLine(Vote(decider, true, comment)) == "[rejected by " + decider + "] " + comment
  {
    assert Header(decider, false) + " " == "[approved by " + decider + "] ";
    assert Header(decider, true) + " " == "[rejected by " + decider + "] ";
  }

  function MarkedLines(lines: seq<string>, token: string): set<int> {
    set i | 0 <= i < |lines| && Marks(lines[i], token)
  }

  lemma OneLineMore(lines: seq<string>, line: string, token: string)
    ensures |MarkedLines(lines + [line], token)| == |MarkedLines(lines, token)| + if Marks(line, token) then 1 else 0
  {
    var before, all := MarkedLines(lines, token), MarkedLines(lines + [line], token);
    forall i
      ensures i in all <==> i in before || (i == |lines| && Marks(line, token))
    {}
    assert all == before + if Marks(line, token) then {|lines|} else {};
  }

  lemma {:induction false} CountMarkedExactly(lines: seq<string>, token: string)
    ensures CountMarked(lines, token) == |MarkedLines(lines, token)|
    ensures forall i :: i in MarkedLines(lines, token) <==> 0 <= i < |lines| && token <= TrimSpace(lines[i])
    decreases |lines|
  {
    if |lines| > 0 {
      var front, last := lines[..|lines| - 1], lines[|lines| - 1];
      CountMarkedExactly(front, token);
      OneLineMore(front, last, token);
      assert lines == front + [last];
    }
  }

  method CountApprovals(comment: string) returns (count: nat)
    ensures count == CountMarked(Lines(comment), APPROVED)
  {
    count := 0;
    var lines := Lines(comment);
    if comment == "" {
      assert lines == [""] && !Marks("", APPROVED);
      assert lines[..0] == [];
      return;
    }
    for i := 0 to |lines|
      invariant count == CountMarked(lines[..i], APPROVED)
    {
      assert lines[..i + 1][..i] == lines[..i];
      if APPROVED <= TrimSpace(lines[i]) {
        count := count + 1;
      }
    }
    assert lines[..|lines|] == lines;
  }

  predicate HasPriorVote(comment: string, decider: Uuid) {
    || CountMarked(Lines(comment), Header(decider, false)) > 0
    || CountMarked(Lines(comment), Header(decider, true)) > 0
  }

  method HasPriorVoteByDecider(comment: string, decider: Uuid) returns (found: bool)
    ensures found <==> HasPriorVote(comment, decider)
  {
    var lines := Lines(comment);
    var approveToken, rejectToken := Header(decider, false), Header(decider, true);
    if comment == "" {
      assert lines == [""] && lines[..0] == [];
      assert TrimSpace("") == "";
      return false;
    }
    for i := 0 to |lines|
      invariant CountMarked(lines[..i], approveToken) == 0 && CountMarked(lines[..i], rejectToken) == 0
    {
      assert lines[..i + 1][..i] == lines[..i];
      if approveToken <= TrimSpace(lines[i]) || rejectToken <= TrimSpace(lines[i]) {
        MarkedSomewhere(lines, i, approveToken);
        MarkedSomewhere(lines, i, rejectToken);
        return true;
      }
    }
    assert lines[..|lines|] == lines;
    found := false;
  }

  lemma {:induction false} MarkedSomewhere(lines: seq<string>, i: nat, token: string)
    requires i < |lines|
    ensures Marks(lines[i], token) ==> CountMarked(lines, token) > 0
    decreases |lines|
  {
    if i < |lines| - 1 {
      MarkedSomewhere(lines[..|lines| - 1], i, token);
    }
  }

  // ----- Lines and trimming -----

  /** Splitting a text that continues with a line break, as `rest` does. */
  lemma {:induction false} LinesBeforeBreak(a: string, rest: string)
    requires rest != "" && rest[0] == '\n'
    ensures Lines(a + rest) == Lines(a) + Lines(rest[1..])
    decreases |a|
  {
    if a == "" {
      assert a + rest == rest;
    } else {
      LinesBeforeBreak(a[1..], rest);
      assert (a + rest)[1..] == a[1..] + rest;
    }
  }

  lemma LinesOfJoin(a: string, b: string)
    ensures Lines(a + ("\n" + b)) == Lines(a) + Lines(b)
  {
    var rest := "\n" + b;
    assert rest[1..] == b;
    LinesBeforeBreak(a, rest);
  }

  lemma {:induction false} LinesOfPrefix(p: string, b: string)
    requires '\n' !in p
    ensures Lines(p + b) == Lines(b)[0 := p + Lines(b)[0]]
    decreases |p|
  {
    var lb := Lines(b);
    if p == "" {
      assert p + b == b && p + lb[0] == lb[0];
    } else {
      LinesOfPrefix(p[1..], b);
      assert (p + b)[1..] == p[1..] + b;
      assert [p[0]] + (p[1..] + lb[0]) == p + lb[0];
    }
  }

  lemma {:induction false} LinesOfSuffix(a: string, c: char)
    requires c != '\n'
    ensures var n := |Lines(a)|; Lines(a + [c]) == Lines(a)[n - 1 := Lines(a)[n - 1] + [c]]
    decreases |a|
  {
    if a == "" {
      assert a + [c] == [c] && [c][1..] == "" && [c] + "" == "" + [c];
    } else {
      var lines := Lines(a[1..]);
      LinesOfSuffix(a[1..], c);
      assert (a + [c])[1..] == a[1..] + [c];
      if a[0] == '\n' {
        assert ([""] + lines)[|lines|] == lines[|lines| - 1];
      } else if |lines| == 1 {
        assert [a[0]] + (lines[0] + [c]) == [a[0]] + lines[0] + [c];
        assert Lines(a + [c]) == [[a[0]] + lines[0] + [c]] && Lines(a) == [[a[0]] + lines[0]];
      }
    }
  }

  lemma {:induction false} TrimRightSpace(l: string, c: char)
    requires IsSpace(c)
    ensures TrimSpace(l + [c]) == TrimSpace(l)
    decreases |l|
  {
    if l == "" {
      assert l + [c] == [c] && [c][1..] == "";
    } else if IsSpace(l[0]) {
      assert (l + [c])[1..] == l[1..] + [c];
      TrimRightSpace(l[1..], c);
    } else {
      assert (l + [c])[..|l|] == l;
    }
  }

  lemma {:induction false} CountOfConcat(a: seq<string>, b: seq<string>, token: string)
    ensures CountMarked(a + b, token) == CountMarked(a, token) + CountMarked(b, token)
    decreases |b|
  {
    if b == [] {
      assert a + b == a;
    } else {
      assert (a + b)[..|a + b| - 1] == a + b[..|b| - 1];
      CountOfConcat(a, b[..|b| - 1], token);
    }
  }

  lemma CountOfOne(line: string, token: string)
    ensures CountMarked([line], token) == if Marks(line, token) then 1 else 0
  {
    assert [line][..0] == [];
  }

  lemma CountDropsLeadingSpace(c: char, s: string, token: string)
    requires IsSpace(c) && token != ""
    ensures CountMarked(Lines([c] + s), token) == CountMarked(Lines(s), token)
  {
    var lines := Lines(s);
    assert ([c] + s)[1..] == s;
    assert !Marks("", token);
    if c == '\n' {
      CountOfConcat([""], lines, token);
      CountOfOne("", token);
    } else {
      var first := [c] + lines[0];
      assert first[1..] == lines[0];
      assert Lines([c] + s) == [first] + lines[1..];
      CountOfConcat([first], lines[1..], token);
      CountOfConcat([lines[0]], lines[1..], token);
      CountOfOne(first, token);
      CountOfOne(lines[0], token);
      assert lines == [lines[0]] + lines[1..];
    }
  }

  lemma CountDropsTrailingSpace(s: string, c: char, token: string)
    requires IsSpace(c) && token != ""
    ensures CountMarked(Lines(s + [c]), token) == CountMarked(Lines(s), token)
  {
    var lines := Lines(s);
    assert !Marks("", token);
    if c == '\n' {
      LinesOfJoin(s, "");
      assert s + ("\n" + "") == s + [c];
      CountOfConcat(lines, [""], token);
      CountOfOne("", token);
    } else {
      var n := |lines|;
      LinesOfSuffix(s, c);
      assert Lines(s + [c]) == lines[..n - 1] + [lines[n - 1] + [c]];
      TrimRightSpace(lines[n - 1], c);
      CountOfConcat(lines[..n - 1], [lines[n - 1] + [c]], token);
      CountOfConcat(lines[..n - 1], [lines[n - 1]], token);
      CountOfOne(lines[n - 1] + [c], token);
      CountOfOne(lines[n - 1], token);
      assert lines == lines[..n - 1] + [lines[n - 1]];
    }
  }

  lemma {:induction false} CountIgnoresTrimLeft(s: string, token: string)
    requires token != ""
    ensures CountMarked(Lines(TrimLeft(s)), token) == CountMarked(Lines(s), token)
    decreases |s|
  {
    if s != "" && IsSpace(s[0]) {
      CountIgnoresTrimLeft(s[1..], token);
      CountDropsLeadingSpace(s[0], s[1..], token);
      assert s == [s[0]] + s[1..];
    }
  }

  lemma {:induction false} CountIgnoresTrimRight(s: string, token: string)
    requires token != ""
    ensures CountMarked(Lines(TrimRight(s)), token) == CountMarked(Lines(s), token)
    decreases |s|
  {
    if s != "" && IsSpace(s[|s| - 1]) {
      CountIgnoresTrimRight(s[..|s| - 1], token);
      CountDropsTrailingSpace(s[..|s| - 1], s[|s| - 1], token);
      assert s == s[..|s| - 1] + [s[|s| - 1]];
    }
  }

  // ----- What the readers see after one vote -----

  /** Lines of a vote's comment, after its first line break, that themselves read as the token. */
  function Injected(comment: string, token: string): nat {
    CountMarked(Lines(comment)[1..], token)
  }

  lemma {:induction false} TrimRightKeeps(prefix: string, s: string)
    requires prefix != "" && !IsSpace(prefix[|prefix| - 1]) && prefix <= s
    ensures prefix <= TrimRight(s)
    decreases |s|
  {
    if IsSpace(s[|s| - 1]) {
      TrimRightKeeps(prefix, s[..|s| - 1]);
    }
  }

  lemma HeaderShape(decider: Uuid, reject: bool)
    ensures var h := Header(decider, reject);
            && |h| == 50 && h[0] == '[' && h[49] == ']' && h[1] == (if reject then 'r' else 'a')
            && h[..13] == Word(reject) && h[13..49] == decider && '\n' !in h
  {}

  lemma PrefixSurvivesTrim(h: string, rest: string)
    requires h != "" && !IsSpace(h[0]) && !IsSpace(h[|h| - 1])
    ensures h <= TrimSpace(h + rest)
  {
    TrimRightKeeps(h, h + rest);
  }

  /** The header of a vote line is read as an approval exactly when it is one. */
  lemma HeaderCountsOnce(decider: Uuid, reject: bool, rest: string)
    ensures Marks(Header(decider, reject) + rest, APPROVED) <==> !reject
  {
    var h := Header(decider, reject);
    HeaderShape(decider, reject);
    PrefixSurvivesTrim(h, rest);
    var line := TrimSpace(h + rest);
    assert line[1] == h[1] && line[..13] == h[..13];
    assert APPROVED[1] == 'a' && |APPROVED| == 13;
  }

  /** Of all headers a vote line starts with its own only. */
  lemma HeaderNamesDecider(decider: Uuid, reject: bool, rest: string, e: Uuid, q: bool)
    ensures Marks(Header(decider, reject) + rest, Header(e, q)) <==> decider == e && reject == q
  {
    var h, g := Header(decider, reject), Header(e, q);
    HeaderShape(decider, reject);
    HeaderShape(e, q);
    PrefixSurvivesTrim(h, rest);
    var line := TrimSpace(h + rest);
    assert line[..50] == h;
    if Marks(h + rest, g) {
      assert line[..50] == g;
    }
  }

  /** What Lines sees of a vote line: its header with the first comment line, then the injected lines. */
  function FirstRest(comment: string): string {
    " " + Lines(comment)[0]
  }

  lemma VoteLineLines(v: Vote)
    ensures Lines(VoteLine(v)) == [Header(v.decider, v.reject) + FirstRest(v.comment)] + Lines(v.comment)[1..]
  {
    var h := Header(v.decider, v.reject);
    HeaderShape(v.decider, v.reject);
    LinesOfPrefix(h + " ", v.comment);
    assert h + " " + Lines(v.comment)[0] == h + FirstRest(v.comment);
  }

  /** For any token, one vote adds what its header marks plus what its comment injects; join, trim and split
      neither lose nor invent lines. */
  lemma AppendCounts(ledger: string, v: Vote, token: string)
    requires token != ""
    ensures CountMarked(Lines(Append(ledger, v)), token)
            == CountMarked(Lines(ledger), token)
               + (if Marks(Header(v.decider, v.reject) + FirstRest(v.comment), token) then 1 else 0)
               + Injected(v.comment, token)
  {
    var line := VoteLine(v);
    var joined := ledger + ("\n" + line);
    CountIgnoresTrimRight(TrimLeft(joined), token);
    CountIgnoresTrimLeft(joined, token);
    LinesOfJoin(ledger, line);
    CountOfConcat(Lines(ledger), Lines(line), token);
    VoteLineLines(v);
    var first := Header(v.decider, v.reject) + FirstRest(v.comment);
    CountOfConcat([first], Lines(v.comment)[1..], token);
    CountOfOne(first, token);
  }

  // ----- The ledger refines a list of votes -----

  function Approvals(votes: seq<Vote>): nat {
    if |votes| == 0 then 0
    else Approvals(votes[..|votes| - 1]) + if votes[|votes| - 1].reject then 0 else 1
  }

  function InjectedTotal(votes: seq<Vote>, token: string): nat {
    if |votes| == 0 then 0
    else InjectedTotal(votes[..|votes| - 1], token) + Injected(votes[|votes| - 1].comment, token)
  }

  /** countApprovals, for any comments: the approvals cast plus the approval lines their comments inject. */
  lemma {:induction false} CountIsApprovalsPlusInjected(votes: seq<Vote>)
    ensures CountMarked(Lines(LedgerOf(votes)), APPROVED) == Approvals(votes) + InjectedTotal(votes, APPROVED)
    decreases |votes|
  {
    if |votes| == 0 {
      CountOfOne("", APPROVED);
    } else {
      var front, v := votes[..|votes| - 1], votes[|votes| - 1];
      CountIsApprovalsPlusInjected(front);
      AppendCounts(LedgerOf(front), v, APPROVED);
      HeaderCountsOnce(v.decider, v.reject, FirstRest(v.comment));
    }
  }

  lemma {:induction false} NothingInjected(votes: seq<Vote>, token: string)
    ensures InjectedTotal(votes, token) == 0 <==> forall v | v in votes :: Injected(v.comment, token) == 0
    decreases |votes|
  {
    if |votes| > 0 {
      NothingInjected(votes[..|votes| - 1], token);
      assert votes == votes[..|votes| - 1] + [votes[|votes| - 1]];
    }
  }

  /** The promise "countApprovals equals the approvals accepted" holds exactly when no comment carries,
      after a line break, a line that reads as an approval. */
  lemma CountExactIffNothingInjected(votes: seq<Vote>)
    ensures CountMarked(Lines(LedgerOf(votes)), APPROVED) == Approvals(votes)
            <==> forall v | v in votes :: Injected(v.comment, APPROVED) == 0
  {
    CountIsApprovalsPlusInjected(votes);
    NothingInjected(votes, APPROVED);
  }

  /** Newline-free comments inject nothing. */
  lemma {:induction false} NewlineFreeInjectsNothing(comment: string, token: string)
    requires '\n' !in comment
    ensures Lines(comment) == [comment] && Injected(comment, token) == 0
    decreases |comment|
  {
    if comment != "" {
      NewlineFreeInjectsNothing(comment[1..], token);
      assert [comment[0]] + comment[1..] == comment;
    }
  }

  ghost predicate Voted(votes: seq<Vote>, d: Uuid) {
    exists v | v in votes :: v.decider == d
  }

  ghost predicate InjectsVoteBy(votes: seq<Vote>, d: Uuid) {
    exists v | v in votes :: Injected(v.comment, Header(d, false)) + Injected(v.comment, Header(d, true)) > 0
  }

  /** hasPriorVoteByDecider, for any comments: d voted, or some comment injects a line in d's name. */
  lemma {:induction false} PriorVoteExact(votes: seq<Vote>, d: Uuid)
    ensures HasPriorVote(LedgerOf(votes), d) <==> Voted(votes, d) || InjectsVoteBy(votes, d)
    decreases |votes|
  {
    var yes, no := Header(d, false), Header(d, true);
    if |votes| == 0 {
      CountOfOne("", yes);
      CountOfOne("", no);
    } else {
      var front, v := votes[..|votes| - 1], votes[|votes| - 1];
      assert votes == front + [v];
      PriorVoteExact(front, d);
      AppendCounts(LedgerOf(front), v, yes);
      AppendCounts(LedgerOf(front), v, no);
      HeaderNamesDecider(v.decider, v.reject, FirstRest(v.comment), d, false);
      HeaderNamesDecider(v.decider, v.reject, FirstRest(v.comment), d, true);
    }
  }

  /** With newline-free comments the ledger is exactly the votes cast. */
  lemma LedgerRefinesVotes(votes: seq<Vote>, d: Uuid)
    requires forall v | v in votes :: '\n' !in v.comment
    ensures CountMarked(Lines(LedgerOf(votes)), APPROVED) == Approvals(votes)
    ensures HasPriorVote(LedgerOf(votes), d) <==> Voted(votes, d)
  {
    forall v, token | v in votes
      ensures Injected(v.comment, token) == 0
    {
      NewlineFreeInjectsNothing(v.comment, token);
    }
    CountExactIffNothingInjected(votes);
    PriorVoteExact(votes, d);
  }

  lemma InjectedHeader(d: Uuid)
    ensures Lines("\n" + Header(d, false))[1..] == [Header(d, false)]
  {
    var h := Header(d, false);
    HeaderShape(d, false);
    NewlineFreeInjectsNothing(h, APPROVED);
    LinesOfJoin("", h);
    assert "" + ("\n" + h) == "\n" + h;
  }

  /** A ledger of one vote that is counted as more than one approval, of one voter: the comment's second line is a token
      line. */
  lemma InjectedLineIsCounted(d: Uuid, other: Uuid)
    requires other != d
    ensures var v := Vote(d, false, "\n" + Header(d, false));
            CountMarked(Lines(LedgerOf([v])), APPROVED) == 2 && Approvals([v]) == 1
              && !HasPriorVote(LedgerOf([v]), other)
  {
    var h := Header(d, false);
    var v := Vote(d, false, "\n" + h);
    InjectedHeader(d);
    HeaderCountsOnce(d, false, "");
    assert h + "" == h;
    CountOfOne(h, APPROVED);
    assert [v][..0] == [];
    CountIsApprovalsPlusInjected([v]);
    CountOfOne(h, Header(other, false));
    CountOfOne(h, Header(other, true));
    HeaderNamesDecider(d, false, "", other, false);
    HeaderNamesDecider(d, false, "", other, true);
    PriorVoteExact([v], other);
  }
}
