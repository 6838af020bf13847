/** The three user-to-target relations — favorites and basket over (user,
    recipe), follows over (user, author) — share one shape: a set of pairs
    with add, remove and an existence check for the viewer. */
module Toggles {
  import opened Results
  import opened Models
  import opened Permissions

  /** A recipe id for favorites and basket, an author's user id for follows. */
  type Target = nat

  /** Adds the pair; a pair already present is refused with a 400 carrying
      `present`, and the relation is left as it was. */
  function Add(rel: set<(UserId, Target)>, u: UserId, t: Target, present: Reason): (r: Result<set<(UserId, Target)>>)
    ensures r.Err? <==> (u, t) in rel
    ensures r.Err? ==> r.error == BadRequest(present)
    ensures r.Ok? ==> (u, t) in r.value
    ensures r.Ok? ==> forall p: (UserId, Target) | p != (u, t) :: (p in r.value <==> p in rel)
  {
    if (u, t) in rel then Err(BadRequest(present)) else Ok(rel + {(u, t)})
  }

  /** Removes the pair; a pair that is absent is refused with a 400
      carrying `absent`. */
  function Remove(rel: set<(UserId, Target)>, u: UserId, t: Target, absent: Reason): (r: Result<set<(UserId, Target)>>)
    ensures r.Err? <==> (u, t) !in rel
    ensures r.Err? ==> r.error == BadRequest(absent)
    ensures r.Ok? ==> (u, t) !in r.value
    ensures r.Ok? ==> forall p: (UserId, Target) | p != (u, t) :: (p in r.value <==> p in rel)
  {
    if (u, t) !in rel then Err(BadRequest(absent)) else Ok(rel - {(u, t)})
  }

  /** The existence flag shown to a viewer: false for an anonymous viewer
      without looking at the relation, membership otherwise. */
  function Exists(rel: set<(UserId, Target)>, v: Viewer, t: Target): (b: bool)
    ensures v.Anonymous? ==> !b
    ensures v.Member? ==> (b <==> (v.id, t) in rel)
  {
    match v
    case Anonymous => false
    case Member(id, _) => (id, t) in rel
  }

  /** Removing right after a successful add restores the relation. */
  lemma AddThenRemove(rel: set<(UserId, Target)>, u: UserId, t: Target, present: Reason, absent: Reason)
    requires Add(rel, u, t, present).Ok?
    ensures Remove(Add(rel, u, t, present).value, u, t, absent) == Ok(rel)
  {
    var added := Add(rel, u, t, present).value;
    assert added - {(u, t)} == rel;
  }

  /** Adding right after a successful removal restores the relation. */
  lemma RemoveThenAdd(rel: set<(UserId, Target)>, u: UserId, t: Target, present: Reason, absent: Reason)
    requires Remove(rel, u, t, absent).Ok?
    ensures Add(Remove(rel, u, t, absent).value, u, t, present) == Ok(rel)
  {
    var removed := Remove(rel, u, t, absent).value;
    assert removed + {(u, t)} == rel;
  }

  /** A second add of the same pair fails and the pair stays stored once:
      after the first add the viewer sees it. */
  lemma AddTwice(rel: set<(UserId, Target)>, u: UserId, isStaff: bool, t: Target, present: Reason)
    requires Add(rel, u, t, present).Ok?
    ensures Add(Add(rel, u, t, present).value, u, t, present) == Err(BadRequest(present))
    ensures Exists(Add(rel, u, t, present).value, Member(u, isStaff), t)
  {
  }
}
