/**
 Helpers shared by the editors (util.py): clamping, case-insensitive prefix
 matching of names, finding the member a typed name most likely means, and the
 shortest-looking name that tells a member apart from others with the same
 first name.

 The members directory is a dict keyed by member id; it is modelled as the
 sequence of its records in iteration order.
 */
module Util {
  import opened Builtins

  datatype Member = Member(id: nat, firstName: string, lastName: string)

  /** "first last", the name the lookups compare against. */
  function FullName(m: Member): string {
    m.firstName + " " + m.lastName
  }

  // ---------------------------------------------------------------------------
  // clamp

  /** clamp: limits x to the range [low, high]. */
  function Clamp(x: int, low: int, high: int): (r: int)
    ensures low <= high ==> low <= r <= high
    ensures low <= x <= high ==> r == x
    ensures x < low ==> r == low
    ensures x >= low && x > high ==> r == high
  {
    if x < low then low else if x > high then high else x
  }

  /** Clamping a clamped value changes nothing. */
  lemma ClampIdempotent(x: int, low: int, high: int)
    requires low <= high
    ensures Clamp(Clamp(x, low, high), low, high) == Clamp(x, low, high)
  {
  }

  // ---------------------------------------------------------------------------
  // substr_match

  /** The length of the longest common prefix of a and b, ignoring ASCII case.
      It is characterised by: both prefixes agree up to it, and the next
      characters (when both strings have one) differ. */
  function MatchLength(a: string, b: string): (k: nat)
    ensures k <= |a| && k <= |b|
    ensures forall i :: 0 <= i < k ==> Lower(a[i]) == Lower(b[i])
    ensures k < |a| && k < |b| ==> Lower(a[k]) != Lower(b[k])
  {
    if |a| == 0 || |b| == 0 || Lower(a[0]) != Lower(b[0]) then 0
    else 1 + MatchLength(a[1..], b[1..])
  }

  /** The characterisation determines the match length: any k with the three
      properties is MatchLength(a, b). */
  lemma MatchLengthUnique(a: string, b: string, k: nat)
    requires k <= |a| && k <= |b|
    requires forall i :: 0 <= i < k ==> Lower(a[i]) == Lower(b[i])
    requires k < |a| && k < |b| ==> Lower(a[k]) != Lower(b[k])
    ensures k == MatchLength(a, b)
  {
  }

  /** Matching is symmetric in its two arguments. */
  lemma {:induction false} MatchLengthSymmetric(a: string, b: string)
    ensures MatchLength(a, b) == MatchLength(b, a)
  {
    if |a| > 0 && |b| > 0 && Lower(a[0]) == Lower(b[0]) {
      MatchLengthSymmetric(a[1..], b[1..]);
    }
  }

  /** substr_match: lower-cases both strings and scans up to the shorter length,
      returning at the first position where they differ. */
  method SubstrMatch(a: string, b: string) returns (k: nat)
    ensures k == MatchLength(a, b)
  {
    var la := LowerString(a);
    var lb := LowerString(b);
    var high := if |la| < |lb| then |la| else |lb|;
    for i := 0 to high
      invariant forall j :: 0 <= j < i ==> la[j] == lb[j]
    {
      if la[i] != lb[i] {
        MatchLengthUnique(a, b, i);
        return i;
      }
    }
    MatchLengthUnique(a, b, high);
    k := high;
  }

  // ---------------------------------------------------------------------------
  // find_by_name: what both copies (util.py and login.py) compute

  function Score(name: string, m: Member): nat {
    MatchLength(name, FullName(m))
  }

  /** Each member's match length, in iteration order. */
  function Scores(name: string, ms: seq<Member>): (s: seq<nat>)
    ensures |s| == |ms| && forall k :: 0 <= k < |ms| ==> s[k] == Score(name, ms[k])
  {
    seq(|ms|, k requires 0 <= k < |ms| => Score(name, ms[k]))
  }

  /** One more score: FirstMax moves to it exactly when it beats the best so far. */
  lemma FirstMaxStep(s: seq<nat>, i: nat)
    requires i < |s|
    ensures var j := FirstMax(s[..i]);
      FirstMax(s[..i + 1]) == if s[i] > (if j == -1 then 0 else s[j]) then i else j
  {
    assert s[..i + 1][..i] == s[..i];
  }

  /** j holds the first of the largest scores, and that score is positive. */
  ghost predicate IsFirstMax(s: seq<nat>, j: int) {
    && 0 <= j < |s|
    && s[j] > 0
    && (forall k :: 0 <= k < |s| ==> s[k] <= s[j])
    && (forall k :: 0 <= k < j ==> s[k] < s[j])
  }

  /** The running maximum of find_by_name's loop as a recursion over the scores
      seen so far: a later score replaces the best only when strictly larger.
      Yields -1 when every score is 0. */
  function FirstMax(s: seq<nat>): (j: int)
    ensures -1 <= j < |s|
  {
    if |s| == 0 then -1
    else
      var j := FirstMax(s[..|s| - 1]);
      var best := if j == -1 then 0 else s[j];
      if s[|s| - 1] > best then |s| - 1 else j
  }

  /** The running maximum is -1 exactly when every score is 0, and otherwise it
      holds the first of the largest scores. */
  lemma {:induction false} FirstMaxSpec(s: seq<nat>)
    ensures var j := FirstMax(s);
      && (j == -1 <==> forall k :: 0 <= k < |s| ==> s[k] == 0)
      && (j != -1 ==> IsFirstMax(s, j))
  {
    if |s| > 0 {
      var init := s[..|s| - 1];
      FirstMaxSpec(init);
      assert forall k :: 0 <= k < |init| ==> init[k] == s[k];
    }
  }

  /** j is the first member whose "first last" shares the longest case-insensitive
      prefix with name, and that prefix is not empty. */
  ghost predicate IsFirstBest(name: string, ms: seq<Member>, j: int) {
    IsFirstMax(Scores(name, ms), j)
  }

  /** The index of the first best-matching member, or -1 when no member shares
      even one leading character with name. */
  function BestIndex(name: string, ms: seq<Member>): (j: int)
    ensures j == -1 <==> forall k :: 0 <= k < |ms| ==> Score(name, ms[k]) == 0
    ensures j != -1 ==> IsFirstBest(name, ms, j)
  {
    FirstMaxSpec(Scores(name, ms));
    FirstMax(Scores(name, ms))
  }

  /** The first best match is unique. */
  lemma FirstBestUnique(name: string, ms: seq<Member>, j: int, j': int)
    requires IsFirstBest(name, ms, j) && IsFirstBest(name, ms, j')
    ensures j == j'
  {
  }

  /** The value find_by_name reports: the best member's id, where an id that
      Python reads as false (0), like no match at all, comes back as -1. */
  function BestMatchId(name: string, ms: seq<Member>): int {
    var j := BestIndex(name, ms);
    if j == -1 || ms[j].id == 0 then -1 else ms[j].id
  }

  /** No member shares a first character with the name: the lookup reports -1. */
  lemma BestMatchNone(name: string, ms: seq<Member>)
    requires forall k :: 0 <= k < |ms| ==> |name| == 0 || |FullName(ms[k])| == 0 || Lower(name[0]) != Lower(FullName(ms[k])[0])
    ensures BestMatchId(name, ms) == -1
  {
    forall k | 0 <= k < |ms| ensures Score(name, ms[k]) == 0 {
    }
  }

  /** Otherwise the reported id is that of a member whose match is at least as
      long as every other member's, and strictly longer than any earlier one's. */
  lemma BestMatchFound(name: string, ms: seq<Member>)
    requires BestMatchId(name, ms) != -1
    ensures exists j :: IsFirstBest(name, ms, j) && ms[j].id == BestMatchId(name, ms)
  {
    var j := BestIndex(name, ms);
    assert IsFirstBest(name, ms, j);
  }

  /** A member's match can never exceed the length of its full name, so a member
      whose full name is shorter than the best match so far cannot win: the skip
      in the loop does not change the outcome. */
  lemma SkipIsSound(name: string, m: Member, best: nat)
    requires |m.firstName| + |m.lastName| + 1 < best
    ensures Score(name, m) < best
  {
  }

  /** find_by_name (util.py): one pass over the members, keeping the longest match
      so far and taking a later member only when it matches strictly longer. */
  method FindByName(name: string, members: seq<Member>) returns (id: int)
    ensures id == BestMatchId(name, members)
  {
    var maxMatch: nat := 0;
    var maxId: Option<nat> := None;
    ghost var scores := Scores(name, members);
    ghost var j := -1;
    for i := 0 to |members|
      invariant j == FirstMax(scores[..i])
      invariant maxMatch == if j == -1 then 0 else scores[j]
      invariant maxId == if j == -1 then None else Some(members[j].id)
    {
      FirstMaxStep(scores, i);
      var member := members[i];
      if |member.firstName| + |member.lastName| + 1 < maxMatch {
        SkipIsSound(name, member, maxMatch);
        continue;
      }
      var memberName := member.firstName + " " + member.lastName;
      var matchLen := SubstrMatch(name, memberName);
      assert matchLen == scores[i];
      if matchLen > maxMatch {
        maxMatch := matchLen;
        maxId := Some(member.id);
        j := i;
      }
    }
    assert scores[..|members|] == scores;
    id := if maxId == None || maxId.value == 0 then -1 else maxId.value;
  }

  // ---------------------------------------------------------------------------
  // unique_name

  /** The other members with the target's first name, in iteration order. */
  function SameFirstName(target: Member, members: seq<Member>): (r: seq<Member>)
    ensures forall m :: m in r <==> m in members && m != target && m.firstName == target.firstName
  {
    if |members| == 0 then []
    else
      var rest := SameFirstName(target, members[1..]);
      assert forall m :: m in members <==> m == members[0] || m in members[1..];
      var m := members[0];
      if m != target && m.firstName == target.firstName then [m] + rest else rest
  }

  /** m's last name differs from the target's somewhere among the first k characters. */
  predicate DiffersWithin(m: Member, target: Member, k: nat) {
    exists p :: 0 <= p < k && p < |m.lastName| && p < |target.lastName| && m.lastName[p] != target.lastName[p]
  }

  /** Every member of others is told apart from the target by the first k
      characters of the last name. */
  ghost predicate Distinguishes(target: Member, others: seq<Member>, k: nat) {
    forall m :: m in others ==> DiffersWithin(m, target, k)
  }

  /** unique_name: the target's first name; when others share it, followed by the
      shortest-looking prefix of the last name that the pruning loop settles on,
      or by the whole last name and the member id when the loop never empties
      the candidate list. The loop removes candidates from the list it is
      iterating over, so the candidate after each removed one is not looked at
      in that round. `None` stands for the IndexError raised when a candidate's
      last name is shorter than the position being compared. */
  method UniqueName(target: Member, members: seq<Member>) returns (r: Option<string>)
    ensures r.None? ==> exists m :: m in SameFirstName(target, members) && |m.lastName| < |target.lastName|
    ensures (forall m :: m in SameFirstName(target, members) ==> |m.lastName| >= |target.lastName|) ==> r.Some?
    ensures r.Some? ==> |r.value| >= |target.firstName| && r.value[..|target.firstName|] == target.firstName
    ensures SameFirstName(target, members) == [] ==> r == Some(target.firstName)
    ensures r.Some? && SameFirstName(target, members) != [] ==>
      || r.value == target.firstName + " " + target.lastName + " " + NatToString(target.id)
      || exists k :: 1 <= k <= |target.lastName| && r.value == target.firstName + " " + target.lastName[..k]
                     && Distinguishes(target, SameFirstName(target, members), k)
  {
    var name := target.firstName;
    var others := SameFirstName(target, members);
    var matches := others;
    var uniqueLength := 0;
    if |matches| > 0 {
      var last := target.lastName;
      var i := 0;
      while i < |last|
        invariant 0 <= i <= |last|
        invariant uniqueLength == 0
        invariant forall m :: m in matches ==> m in others
        invariant forall m :: m in others ==> m in matches || DiffersWithin(m, target, i)
        invariant |matches| > 0
      {
        var j := 0;
        while j < |matches|
          invariant 0 <= j <= |matches| + 1
          invariant forall m :: m in matches ==> m in others
          invariant forall m :: m in others ==> m in matches || DiffersWithin(m, target, i + 1)
        {
          var candidate := matches[j];
          if i >= |candidate.lastName| {
            return None;
          }
          if candidate.lastName[i] != last[i] {
            assert DiffersWithin(candidate, target, i + 1);
            matches := RemoveFirst(matches, candidate);
          }
          j := j + 1;
        }
        if |matches| == 0 {
          uniqueLength := i + 1;
          break;
        }
        i := i + 1;
      }
      if uniqueLength > 0 {
        name := name + " " + last[..uniqueLength];
        assert Distinguishes(target, others, uniqueLength);
      } else {
        name := name + " " + last + " " + NatToString(target.id);
      }
    }
    r := Some(name);
  }
}
