/** The profile page: the skills list, the saved-opportunities tab and the
    role badge. Each handler is a pure function from the page state to the
    value it writes to the user's document (none when it returns early) and
    the new text of the skill input box. */
module Profile {
  import opened Options
  import opened Text
  import opened Seqs
  import opened Records

  /** `userData.skills || []`. */
  function Skills(d: UserDoc): seq<string> {
    d.skills.GetOr([])
  }

  /** `userData?.bookmarkedOpportunities || []`. */
  function Bookmarks(data: Option<UserDoc>): seq<string> {
    if data.Some? then data.value.bookmarkedOpportunities.GetOr([]) else []
  }

  /** The user's document with its skills field replaced by a written value. */
  function WithSkills(d: UserDoc, skills: seq<string>): UserDoc {
    d.(skills := Some(skills))
  }

  /** The outcome of a skill handler: the new value of the `skills` field, if
      one is written, and the text left in the skill input box. */
  datatype SkillEdit = SkillEdit(written: Option<seq<string>>, input: string)

  /** `handleAddSkill`: append the trimmed input unless it is blank, already
      listed, or there is no loaded profile to write to. */
  function AddSkill(s: Session, data: Option<UserDoc>, input: string): (r: SkillEdit)
    ensures r.written.None? <==>
      AllSpace(input) || !HasUserDoc(s) || data.None? || Trim(input) in Skills(data.value)
    ensures r.written.None? ==> r.input == input
    ensures r.written.Some? ==> r.input == ""
    ensures r.written.Some? ==> r.written.value == Skills(data.value) + [Trim(input)]
    ensures r.written.Some? ==> Trim(input) != "" && Trim(input) !in Skills(data.value)
  {
    TrimEmptyIff(input);
    var skill := Trim(input);
    if skill == "" || !HasUserDoc(s) || data.None? then SkillEdit(None, input)
    else
      var current := Skills(data.value);
      if skill in current then SkillEdit(None, input)
      else SkillEdit(Some(current + [skill]), "")
  }

  /** `handleRemoveSkill`: drop every occurrence of the skill, keeping the
      others in order. */
  function RemoveSkill(s: Session, data: Option<UserDoc>, skill: string): (r: Option<seq<string>>)
    ensures r.Some? <==> HasUserDoc(s) && data.Some?
    ensures r.Some? ==>
      && skill !in r.value
      && IsSubseq(r.value, Skills(data.value))
      && (forall x | x in Skills(data.value) && x != skill :: x in r.value)
      && (forall x: string :: multiset(r.value)[x] == if x == skill then 0 else multiset(Skills(data.value))[x])
  {
    if !HasUserDoc(s) || data.None? then None
    else
      var kept := Filter(x => x != skill, Skills(data.value));
      assert forall x: string :: multiset(kept)[x] == if x == skill then 0 else multiset(Skills(data.value))[x] by {
        forall x: string
          ensures multiset(kept)[x] == if x == skill then 0 else multiset(Skills(data.value))[x]
        {
          FilterCount(x => x != skill, Skills(data.value), x);
        }
      }
      Some(kept)
  }

  /** Adding a skill keeps the list free of duplicates. */
  lemma AddSkillKeepsDistinct(s: Session, d: UserDoc, input: string)
    requires NoDuplicates(Skills(d))
    ensures var r := AddSkill(s, Some(d), input);
      NoDuplicates(if r.written.Some? then r.written.value else Skills(d))
  {
    if AddSkill(s, Some(d), input).written.Some? {
      AppendFresh(Skills(d), Trim(input));
    }
  }

  /** Adding the same text again right after it was added writes nothing. */
  lemma AddSkillTwice(s: Session, d: UserDoc, input: string)
    requires AddSkill(s, Some(d), input).written.Some?
    ensures AddSkill(s, Some(WithSkills(d, AddSkill(s, Some(d), input).written.value)), input).written.None?
  {
    var w := AddSkill(s, Some(d), input).written.value;
    assert w[|Skills(d)|] == Trim(input);
    assert Trim(input) in Skills(WithSkills(d, w));
  }

  /** Removing a skill that was just added restores the list it was added to. */
  lemma RemoveUndoesAdd(s: Session, d: UserDoc, input: string)
    requires AddSkill(s, Some(d), input).written.Some?
    ensures RemoveSkill(s, Some(WithSkills(d, AddSkill(s, Some(d), input).written.value)), Trim(input))
         == Some(Skills(d))
  {
    var skill := Trim(input);
    var current := Skills(d);
    var w := AddSkill(s, Some(d), input).written.value;
    assert w == current + [skill];
    assert skill !in current;
    var keep := x => x != skill;
    assert Skills(WithSkills(d, w)) == w;
    FilterConcat(keep, current, [skill]);
    FilterAll(keep, current);
    assert Filter(keep, [skill]) == [] by {
      assert [skill][1..] == [];
    }
    assert Filter(keep, w) == current;
  }

  /** Removing is idempotent: removing the same skill from the written list
      writes that list again. */
  lemma RemoveSkillIdempotent(s: Session, d: UserDoc, skill: string)
    requires RemoveSkill(s, Some(d), skill).Some?
    ensures var w := RemoveSkill(s, Some(d), skill).value;
      RemoveSkill(s, Some(WithSkills(d, w)), skill) == Some(w)
  {
    FilterIdempotent(x => x != skill, Skills(d));
  }

  /** Removing a skill that is not listed writes the list unchanged. */
  lemma RemoveAbsentSkill(s: Session, d: UserDoc, skill: string)
    requires HasUserDoc(s) && skill !in Skills(d)
    ensures RemoveSkill(s, Some(d), skill) == Some(Skills(d))
  {
    FilterAll(x => x != skill, Skills(d));
  }

  /** Removing keeps the list free of duplicates. */
  lemma RemoveSkillKeepsDistinct(s: Session, d: UserDoc, skill: string)
    requires HasUserDoc(s) && NoDuplicates(Skills(d))
    ensures NoDuplicates(RemoveSkill(s, Some(d), skill).value)
  {
    FilterNoDuplicates(x => x != skill, Skills(d));
  }

  /** The saved-opportunities tab: the opportunities whose id is bookmarked,
      in the order of the opportunity list; nothing when the list has not
      loaded. */
  function SavedOpportunities(all: Option<seq<Opportunity>>, data: Option<UserDoc>): (r: seq<Opportunity>)
    ensures all.None? || data.None? ==> r == []
    ensures all.Some? ==> IsSubseq(r, all.value)
    ensures forall o | o in r :: o.id in Bookmarks(data)
    ensures all.Some? ==> forall o | o in all.value && o.id in Bookmarks(data) :: o in r
    ensures all.Some? ==> forall o | o in all.value ::
      multiset(r)[o] == if o.id in Bookmarks(data) then multiset(all.value)[o] else 0
  {
    if all.None? then []
    else
      var ids := Bookmarks(data);
      var saved := (o: Opportunity) => o.id in ids;
      assert data.None? ==> Filter(saved, all.value) == [] by {
        if data.None? {
          FilterNone(saved, all.value);
        }
      }
      Filter(saved, all.value)
  }

  /** The Remove button of a saved opportunity: the bookmark ids without that
      opportunity's id. It needs only the document reference; a profile that
      has not loaded reads as no bookmarks. */
  function RemoveBookmark(s: Session, data: Option<UserDoc>, oppId: string): (r: Option<seq<string>>)
    ensures r.Some? <==> HasUserDoc(s)
    ensures r.Some? ==>
      && oppId !in r.value
      && IsSubseq(r.value, Bookmarks(data))
      && (forall x: string :: multiset(r.value)[x] == if x == oppId then 0 else multiset(Bookmarks(data))[x])
  {
    if !HasUserDoc(s) then None
    else
      var kept := Filter(x => x != oppId, Bookmarks(data));
      assert forall x: string :: multiset(kept)[x] == if x == oppId then 0 else multiset(Bookmarks(data))[x] by {
        forall x: string
          ensures multiset(kept)[x] == if x == oppId then 0 else multiset(Bookmarks(data))[x]
        {
          FilterCount(x => x != oppId, Bookmarks(data), x);
        }
      }
      Some(kept)
  }

  /** After removing a bookmark, the saved tab shows what it showed before
      minus that one opportunity. */
  lemma SavedAfterRemoval(s: Session, d: UserDoc, all: seq<Opportunity>, oppId: string)
    requires HasUserDoc(s)
    ensures var w := RemoveBookmark(s, Some(d), oppId).value;
      SavedOpportunities(Some(all), Some(d.(bookmarkedOpportunities := Some(w))))
        == Filter((o: Opportunity) => o.id != oppId, SavedOpportunities(Some(all), Some(d)))
  {
    var ids := Bookmarks(Some(d));
    var w := Filter(x => x != oppId, ids);
    var dropped := (o: Opportunity) => o.id != oppId;
    var saved := (o: Opportunity) => o.id in ids;
    var savedNow := (o: Opportunity) => o.id in w;
    assert RemoveBookmark(s, Some(d), oppId).value == w;
    assert SavedOpportunities(Some(all), Some(d)) == Filter(saved, all);
    assert SavedOpportunities(Some(all), Some(d.(bookmarkedOpportunities := Some(w)))) == Filter(savedNow, all);
    forall o | o in all
      ensures savedNow(o) == (saved(o) && dropped(o))
    {
      if o.id in ids && o.id != oppId {
        assert o.id in w;
      }
    }
    FilterFilter(dropped, saved, savedNow, all);
  }

  /** The role shown on the badge: `userData?.role || 'student'`. */
  function Role(data: Option<UserDoc>): (r: string)
    ensures r != ""
    ensures RoleOf(data).Some? && RoleOf(data).value != "" ==> r == RoleOf(data).value
    ensures RoleOf(data).None? || RoleOf(data).value == "" ==> r == "student"
  {
    OrElse(RoleOf(data), "student")
  }

  /** The badge takes the secondary colour exactly for mentors and alumni. */
  function SecondaryBadge(data: Option<UserDoc>): (r: bool)
    ensures r <==> data.Some? && data.value.role in {Some("mentor"), Some("alumni")}
  {
    var role := Role(data);
    role == "mentor" || role == "alumni"
  }
}
