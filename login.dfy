/**
 The log-in form's lookup of a user (login.py): a numeric entry is taken as a
 member id, anything else is matched against the members' names with this
 file's own copy of find_by_name. Checking the password (a salted hash looked
 up in the database) is not part of this model.
 */
module Login {
  import opened Builtins
  import opened Util

  /** find_by_name (login.py): the same search as the util.py copy, with the prefix
      comparison written out as a while loop over characters. Both copies report
      BestMatchId, so they always agree. */
  method FindByName(name: string, members: seq<Member>) returns (id: int)
    ensures id == BestMatchId(name, members)
  {
    var maxMatch: nat := 0;
    var maxMember: Option<nat> := None;
    ghost var scores := Scores(name, members);
    ghost var j := -1;
    for i := 0 to |members|
      invariant j == FirstMax(scores[..i])
      invariant maxMatch == if j == -1 then 0 else scores[j]
      invariant maxMember == if j == -1 then None else Some(members[j].id)
    {
      FirstMaxStep(scores, i);
      var memberName := members[i].firstName + " " + members[i].lastName;
      if |memberName| < maxMatch {
        SkipIsSound(name, members[i], maxMatch);
        continue;
      }
      var matchLen := 0;
      while matchLen < |memberName| && matchLen < |name|
        invariant matchLen <= |memberName| && matchLen <= |name|
        invariant forall k :: 0 <= k < matchLen ==> Lower(memberName[k]) == Lower(name[k])
      {
        if Lower(memberName[matchLen]) != Lower(name[matchLen]) {
          break;
        }
        matchLen := matchLen + 1;
      }
      MatchLengthUnique(name, memberName, matchLen);
      assert matchLen == scores[i];
      if matchLen > maxMatch {
        maxMatch := matchLen;
        maxMember := Some(members[i].id);
        j := i;
      }
    }
    assert scores[..|members|] == scores;
    id := if maxMember == None || maxMember.value == 0 then -1 else maxMember.value;
  }

  /** The member a user id names, if any: `user_id in members`. */
  function Lookup(members: seq<Member>, userId: int): (r: Option<Member>)
    ensures r.Some? ==> r.value in members && r.value.id == userId
    ensures r.None? ==> forall m :: m in members ==> m.id != userId
  {
    if |members| == 0 then None
    else if members[0].id == userId then Some(members[0])
    else Lookup(members[1..], userId)
  }

  /** LoginForm.login, up to the password check: a numeric entry is read as the
      user id, any other entry goes through find_by_name; the user is then the
      member with that id, if there is one. */
  method ResolveUser(raw: string, members: seq<Member>) returns (userId: int, user: Option<Member>)
    ensures IsNumeric(raw) ==> userId == ParseNat(raw)
    ensures !IsNumeric(raw) ==> userId == BestMatchId(raw, members)
    ensures user.Some? ==> user.value in members && user.value.id == userId
    ensures user.None? ==> forall m :: m in members ==> m.id != userId
  {
    if !IsNumeric(raw) {
      userId := FindByName(raw, members);
    } else {
      userId := ParseNat(raw);
    }
    user := Lookup(members, userId);
  }

  /** A name that matches some member's "first last" in its first character always
      finds a member, when member ids are positive (as database row ids are);
      a name that matches none is reported as not found. */
  lemma NameLoginFinds(raw: string, members: seq<Member>)
    requires !IsNumeric(raw)
    requires forall m :: m in members ==> m.id > 0
    ensures (exists k :: 0 <= k < |members| && Score(raw, members[k]) > 0) <==> Lookup(members, BestMatchId(raw, members)).Some?
  {
    var j := BestIndex(raw, members);
    if j != -1 {
      assert members[j] in members;
    } else {
      assert forall m :: m in members ==> m.id != -1;
    }
  }
}
