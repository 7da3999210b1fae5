/** The request check the team handler runs before creating a team: no user ID may be
    listed twice. */
module TeamHandler {
  import opened Seqs

  datatype TeamMember = TeamMember(userId: string, username: string, isActive: bool)

  function MemberIds(members: seq<TeamMember>): (ids: seq<string>)
    ensures |ids| == |members|
  {
    seq(|members|, i requires 0 <= i < |members| => members[i].userId)
  }

  /** hasDuplicateUserIDs: true exactly when two positions carry the same user ID. */
  method HasDuplicateUserIDs(members: seq<TeamMember>) returns (dup: bool)
    ensures dup <==> exists i, j :: 0 <= i < j < |members| && members[i].userId == members[j].userId
  {
    var seen: map<string, bool> := map[];
    for k := 0 to |members|
      invariant forall id :: id in seen ==> seen[id]
      invariant seen.Keys == Elements(MemberIds(members)[..k])
      invariant forall i, j :: 0 <= i < j < k ==> members[i].userId != members[j].userId
    {
      var id := members[k].userId;
      if id in seen && seen[id] {
        assert id in MemberIds(members)[..k];
        var i :| 0 <= i < k && MemberIds(members)[..k][i] == id;
        assert members[i].userId == members[k].userId;
        return true;
      }
      forall i | 0 <= i < k ensures members[i].userId != id {
        assert MemberIds(members)[..k][i] == members[i].userId;
      }
      assert MemberIds(members)[..k + 1] == MemberIds(members)[..k] + [id];
      seen := seen[id := true];
    }
    return false;
  }

  /** A list is duplicate-free exactly when it names as many distinct users as entries. */
  lemma DuplicatesIffFewerIds(members: seq<TeamMember>)
    ensures (exists i, j :: 0 <= i < j < |members| && members[i].userId == members[j].userId) <==>
      |Elements(MemberIds(members))| < |members|
  {
    DistinctIffCardinality(MemberIds(members));
    ElementsBound(MemberIds(members));
    var ids := MemberIds(members);
    if !NoDuplicates(ids) {
      var i, j :| 0 <= i < j < |ids| && ids[i] == ids[j];
      assert members[i].userId == members[j].userId;
    }
    if i, j :| 0 <= i < j < |members| && members[i].userId == members[j].userId {
      assert ids[i] == ids[j];
    }
  }
}
