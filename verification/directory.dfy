/** The alumni directory: the search filter over the fetched mentors and
    alumni, and the skill badges of a card. */
module Directory {
  import opened Options
  import opened Text
  import opened Seqs
  import opened Records

  /** `${person.firstName} ${person.lastName}`: a missing name prints as
      "undefined". */
  function FullName(p: UserDoc): string {
    Interpolate(p.firstName) + " " + Interpolate(p.lastName)
  }

  /** The search predicate: the lower-cased term occurs in the lower-cased
      full name, email, bio or one of the skills. Missing email and bio read
      as "", missing skills as none. */
  predicate Matches(p: UserDoc, term: string) {
    var q := Lower(term);
    || Contains(Lower(FullName(p)), q)
    || Contains(Lower(p.email.GetOr("")), q)
    || Contains(Lower(p.bio.GetOr("")), q)
    || exists skill | skill in p.skills.GetOr([]) :: Contains(Lower(skill), q)
  }

  /** `filteredAlumni`: the people matching the search term, in list order;
      undefined while the list is. */
  function FilterAlumni(alumni: Option<seq<UserDoc>>, term: string): (r: Option<seq<UserDoc>>)
    ensures r.Some? <==> alumni.Some?
    ensures r.Some? ==> IsSubseq(r.value, alumni.value)
    ensures r.Some? ==> forall p | p in r.value :: Matches(p, term)
    ensures r.Some? ==> forall p | p in alumni.value && Matches(p, term) :: p in r.value
    ensures r.Some? ==> forall p | p in alumni.value ::
      multiset(r.value)[p] == if Matches(p, term) then multiset(alumni.value)[p] else 0
  {
    if alumni.None? then None
    else Some(Filter((p: UserDoc) => Matches(p, term), alumni.value))
  }

  /** Everybody contains the empty term. */
  lemma MatchesEmpty(p: UserDoc)
    ensures Matches(p, "")
  {
    ContainsEmpty(Lower(FullName(p)));
  }

  /** An empty search keeps every person. */
  lemma EmptySearchKeepsAll(alumni: seq<UserDoc>)
    ensures FilterAlumni(Some(alumni), "") == Some(alumni)
  {
    forall p | p in alumni
      ensures Matches(p, "")
    {
      MatchesEmpty(p);
    }
    FilterAll((p: UserDoc) => Matches(p, ""), alumni);
  }

  /** Terms that differ only in the case of ASCII letters give the same
      result. */
  lemma SearchIgnoresCase(alumni: Option<seq<UserDoc>>, t1: string, t2: string)
    requires |t1| == |t2|
    requires forall i | 0 <= i < |t1| :: LowerChar(t1[i]) == LowerChar(t2[i])
    ensures FilterAlumni(alumni, t1) == FilterAlumni(alumni, t2)
  {
    assert Lower(t1) == Lower(t2);
    if alumni.Some? {
      FilterCongruent((p: UserDoc) => Matches(p, t1), (p: UserDoc) => Matches(p, t2), alumni.value);
    }
  }

  /** A person matching a term matches every part of it. */
  lemma MatchesShorter(p: UserDoc, short: string, long: string)
    requires Contains(long, short) && Matches(p, long)
    ensures Matches(p, short)
  {
    var q, q' := Lower(long), Lower(short);
    ContainsLower(long, short);
    if Contains(Lower(FullName(p)), q) {
      ContainsTransitive(Lower(FullName(p)), q, q');
    } else if Contains(Lower(p.email.GetOr("")), q) {
      ContainsTransitive(Lower(p.email.GetOr("")), q, q');
    } else if Contains(Lower(p.bio.GetOr("")), q) {
      ContainsTransitive(Lower(p.bio.GetOr("")), q, q');
    } else {
      var skill :| skill in p.skills.GetOr([]) && Contains(Lower(skill), q);
      ContainsTransitive(Lower(skill), q, q');
    }
  }

  /** Typing more can only narrow the result: the people found for a longer
      term are a subsequence of those found for any part of it. */
  lemma SearchNarrows(alumni: seq<UserDoc>, short: string, long: string)
    requires Contains(long, short)
    ensures IsSubseq(FilterAlumni(Some(alumni), long).value, FilterAlumni(Some(alumni), short).value)
  {
    forall p | p in alumni && Matches(p, long)
      ensures Matches(p, short)
    {
      MatchesShorter(p, short, long);
    }
    FilterNarrower((p: UserDoc) => Matches(p, long), (p: UserDoc) => Matches(p, short), alumni);
  }

  /** A missing email, bio or skills list searches like an empty one. */
  lemma MissingFieldsReadEmpty(p: UserDoc, term: string)
    ensures Matches(p.(email := None), term) == Matches(p.(email := Some("")), term)
    ensures Matches(p.(bio := None), term) == Matches(p.(bio := Some("")), term)
    ensures Matches(p.(skills := None), term) == Matches(p.(skills := Some([])), term)
  {
  }

  /** A missing first name is searched as the text "undefined". */
  lemma MissingFirstNameReadsUndefined(p: UserDoc)
    requires p.firstName.None?
    ensures Matches(p, "undefined")
  {
    var full := Lower(FullName(p));
    LowerSlice(FullName(p), 0, 9);
    assert FullName(p)[0..9] == "undefined";
    assert Lower("undefined") == "undefined";
    assert OccursAt(full, Lower("undefined"), 0);
  }

  /** The badges of a card: `person.skills || ["Mentorship"]`. An empty list
      is truthy in JavaScript, so only a missing list gets the default. */
  function SkillBadges(p: UserDoc): (r: seq<string>)
    ensures p.skills.None? ==> r == ["Mentorship"]
    ensures p.skills.Some? ==> r == p.skills.value
  {
    p.skills.GetOr(["Mentorship"])
  }
}
