/**
  The candidate-matching query of the profiles router: a stored Filter is turned
  into an ORM `where` predicate, the predicate is run over the profile store, the
  first three matches are kept and each one's birthday is replaced by its age.

  Dates are abstract day numbers. The age and date utilities are not part of this
  model: they enter as the function parameters `ageOf` (calculateAge) and
  `dateOfAge` (convertAgetoDate), about which nothing is assumed.
*/
module ProfileMatching {
  import opened Results

  type Id = string
  type Date = int

  /** An Interest or Purpose row, as selected by `{ select: { name: true } }`. */
  datatype Tag = Tag(name: string)

  /** A stored profile with its interests and purposes joined in. */
  datatype Profile = Profile(
    id: Id,
    userId: string,
    name: string,
    birthday: Date,
    gender: string,
    sexualOrientation: string,
    bio: string,
    interests: seq<Tag>,
    purposes: seq<Tag>)

  /** A profile as it is sent back: `birthday` dropped, `age` added. */
  datatype AgedProfile = AgedProfile(
    id: Id,
    userId: string,
    name: string,
    gender: string,
    sexualOrientation: string,
    bio: string,
    interests: seq<Tag>,
    purposes: seq<Tag>,
    age: int)

  /** A stored Filter: each criterion has its own enabling flag. */
  datatype Filter = Filter(
    showMe: string,
    isAgeFiltered: bool,
    minAge: int,
    maxAge: int,
    isSexualOrientationFiltered: bool,
    sexualOrientations: seq<string>,
    isInterestFiltered: bool,
    interests: seq<Tag>,
    isPurposeFiltered: bool,
    purposes: seq<string>)

  /** An inclusive birthday range `{ gte, lte }`. */
  datatype DateRange = DateRange(gte: Date, lte: Date)

  /** The `where` object handed to `findMany`; `None` stands for an `undefined` field. */
  datatype Where = Where(
    idNot: Id,
    gender: Option<string>,
    birthday: Option<DateRange>,
    sexualOrientationIn: Option<seq<string>>,
    interestsSome: Option<seq<Tag>>,
    purposesSome: Option<seq<Tag>>)

  /** The `take` bound of the candidate query. */
  const MaxCandidates: nat := 3

  /** The "show me" preference of a filter as the gender stored on profiles. */
  function LookingForToGender(lookingFor: string): (g: Option<string>)
    ensures g == Some("Man") <==> lookingFor == "Men"
    ensures g == Some("Woman") <==> lookingFor == "Women"
    ensures g.None? <==> lookingFor != "Men" && lookingFor != "Women"
  {
    if lookingFor == "Men" then Some("Man")
    else if lookingFor == "Women" then Some("Woman")
    else None
  }

  /** The preference under which a gender is asked for, if any. */
  function ShowMeFor(gender: string): Option<string>
  {
    if gender == "Man" then Some("Men")
    else if gender == "Woman" then Some("Women")
    else None
  }

  /** The gender mapping is exactly inverted by `ShowMeFor`: a one-to-one two-entry table. */
  lemma LookingForToGenderInverse(lookingFor: string, gender: string)
    ensures LookingForToGender(lookingFor) == Some(gender) <==> ShowMeFor(gender) == Some(lookingFor)
  {
  }

  // ---------------------------------------------------------------------------
  // The ORM's reading of a `where` object
  // ---------------------------------------------------------------------------

  /** `some: { OR: alternatives }`: some related tag has the name of one alternative. */
  predicate SomeOr(related: seq<Tag>, alternatives: seq<Tag>)
  {
    exists i, j | 0 <= i < |related| && 0 <= j < |alternatives| :: related[i].name == alternatives[j].name
  }

  /**
    Whether a profile satisfies a `where` object: an absent field constrains
    nothing, a plain value is equality, `not` is inequality, `in` is membership,
    `gte`/`lte` are inclusive bounds and `some: { OR }` is SomeOr.
  */
  predicate Matches(w: Where, p: Profile)
  {
    && p.id != w.idNot
    && (w.gender.None? || p.gender == w.gender.value)
    && (w.birthday.None? || w.birthday.value.gte <= p.birthday <= w.birthday.value.lte)
    && (w.sexualOrientationIn.None? || p.sexualOrientation in w.sexualOrientationIn.value)
    && (w.interestsSome.None? || SomeOr(p.interests, w.interestsSome.value))
    && (w.purposesSome.None? || SomeOr(p.purposes, w.purposesSome.value))
  }

  // ---------------------------------------------------------------------------
  // What a filter means, stated directly over the filter
  // ---------------------------------------------------------------------------

  function Names(tags: seq<Tag>): set<string>
  {
    set t | t in tags :: t.name
  }

  /**
    The candidates a filter admits for a requester: never the requester, and
    each enabled criterion holds; a disabled criterion is not consulted.
  */
  predicate Accepts(f: Filter, requester: Id, dateOfAge: int -> Date, p: Profile)
  {
    && p.id != requester
    && (f.showMe == "Men" ==> p.gender == "Man")
    && (f.showMe == "Women" ==> p.gender == "Woman")
    && (f.isAgeFiltered ==> dateOfAge(f.maxAge) <= p.birthday <= dateOfAge(f.minAge))
    && (f.isSexualOrientationFiltered ==> p.sexualOrientation in f.sexualOrientations)
    && (f.isInterestFiltered ==> exists n :: n in Names(p.interests) && n in Names(f.interests))
    && (f.isPurposeFiltered ==> exists n :: n in Names(p.purposes) && n in f.purposes)
  }

  /** `some: { OR }` holds exactly when the two tag lists share a name. */
  lemma SomeOrSharesName(related: seq<Tag>, alternatives: seq<Tag>)
    ensures SomeOr(related, alternatives) <==> exists n :: n in Names(related) && n in Names(alternatives)
  {
    if SomeOr(related, alternatives) {
      var i, j :| 0 <= i < |related| && 0 <= j < |alternatives| && related[i].name == alternatives[j].name;
      assert related[i] in related && alternatives[j] in alternatives;
      assert related[i].name in Names(related);
    }
    if n :| n in Names(related) && n in Names(alternatives) {
      var t :| t in related && t.name == n;
      var u :| u in alternatives && u.name == n;
      var i :| 0 <= i < |related| && related[i] == t;
      var j :| 0 <= j < |alternatives| && alternatives[j] == u;
      assert related[i].name == alternatives[j].name;
    }
  }

  /** The purposes of a filter as `{ name }` alternatives. */
  function PurposeTags(purposes: seq<string>): (tags: seq<Tag>)
    ensures |tags| == |purposes|
    ensures forall k :: 0 <= k < |purposes| ==> tags[k].name == purposes[k]
  {
    seq(|purposes|, k requires 0 <= k < |purposes| => Tag(purposes[k]))
  }

  lemma PurposeTagNames(purposes: seq<string>)
    ensures Names(PurposeTags(purposes)) == set n | n in purposes
  {
    var tags := PurposeTags(purposes);
    forall n | n in purposes ensures n in Names(tags) {
      var k :| 0 <= k < |purposes| && purposes[k] == n;
      assert tags[k] in tags;
    }
  }

  /**
    The `where` object built from a stored filter for the requester's profile id.
    The requester is excluded unconditionally; each other field is present iff
    its flag is set, with the age bounds taken as `gte dateOfAge(maxAge)` and
    `lte dateOfAge(minAge)`. Under the ORM's reading it admits exactly the
    candidates the filter accepts.
  */
  function BuildWhere(f: Filter, requester: Id, dateOfAge: int -> Date): (w: Where)
    ensures w.idNot == requester
    ensures w.gender == LookingForToGender(f.showMe)
    ensures w.birthday.Some? <==> f.isAgeFiltered
    ensures w.birthday.Some? ==> w.birthday.value == DateRange(dateOfAge(f.maxAge), dateOfAge(f.minAge))
    ensures w.sexualOrientationIn.Some? <==> f.isSexualOrientationFiltered
    ensures w.sexualOrientationIn.Some? ==> w.sexualOrientationIn.value == f.sexualOrientations
    ensures w.interestsSome.Some? <==> f.isInterestFiltered
    ensures w.interestsSome.Some? ==> w.interestsSome.value == f.interests
    ensures w.purposesSome.Some? <==> f.isPurposeFiltered
    ensures w.purposesSome.Some? ==> Names(w.purposesSome.value) == set n | n in f.purposes
    ensures forall p :: Matches(w, p) <==> Accepts(f, requester, dateOfAge, p)
  {
    var w := Where(
      requester,
      LookingForToGender(f.showMe),
      if f.isAgeFiltered then Some(DateRange(dateOfAge(f.maxAge), dateOfAge(f.minAge))) else None,
      if f.isSexualOrientationFiltered then Some(f.sexualOrientations) else None,
      if f.isInterestFiltered then Some(f.interests) else None,
      if f.isPurposeFiltered then Some(PurposeTags(f.purposes)) else None);
    PurposeTagNames(f.purposes);
    assert forall p :: Matches(w, p) <==> Accepts(f, requester, dateOfAge, p) by {
      forall p ensures Matches(w, p) <==> Accepts(f, requester, dateOfAge, p) {
        SomeOrSharesName(p.interests, f.interests);
        SomeOrSharesName(p.purposes, PurposeTags(f.purposes));
      }
    }
    w
  }

  // ---------------------------------------------------------------------------
  // Per-criterion behaviour of the built query
  // ---------------------------------------------------------------------------

  /** The requester's own profile never matches, whatever the filter says. */
  lemma RequesterNeverMatches(f: Filter, requester: Id, dateOfAge: int -> Date, p: Profile)
    requires p.id == requester
    ensures !Matches(BuildWhere(f, requester, dateOfAge), p)
  {
  }

  /** Turning any one criterion off can only admit more candidates. */
  lemma DisablingWidens(f: Filter, requester: Id, dateOfAge: int -> Date, p: Profile)
    requires Matches(BuildWhere(f, requester, dateOfAge), p)
    ensures Matches(BuildWhere(f.(isAgeFiltered := false), requester, dateOfAge), p)
    ensures Matches(BuildWhere(f.(isSexualOrientationFiltered := false), requester, dateOfAge), p)
    ensures Matches(BuildWhere(f.(isInterestFiltered := false), requester, dateOfAge), p)
    ensures Matches(BuildWhere(f.(isPurposeFiltered := false), requester, dateOfAge), p)
  {
  }

  /** Two filters that agree on their flags and on every enabled criterion. */
  predicate SameEnabledCriteria(f: Filter, g: Filter)
  {
    && f.showMe == g.showMe
    && f.isAgeFiltered == g.isAgeFiltered
    && f.isSexualOrientationFiltered == g.isSexualOrientationFiltered
    && f.isInterestFiltered == g.isInterestFiltered
    && f.isPurposeFiltered == g.isPurposeFiltered
    && (f.isAgeFiltered ==> f.minAge == g.minAge && f.maxAge == g.maxAge)
    && (f.isSexualOrientationFiltered ==> f.sexualOrientations == g.sexualOrientations)
    && (f.isInterestFiltered ==> f.interests == g.interests)
    && (f.isPurposeFiltered ==> f.purposes == g.purposes)
  }

  /**
    A disabled criterion never excludes a candidate, whatever is stored for it:
    filters differing only in the stored values of disabled criteria select alike.
  */
  lemma DisabledValuesIgnored(f: Filter, g: Filter, requester: Id, dateOfAge: int -> Date, p: Profile)
    requires SameEnabledCriteria(f, g)
    ensures Matches(BuildWhere(f, requester, dateOfAge), p) <==> Matches(BuildWhere(g, requester, dateOfAge), p)
  {
  }

  // ---------------------------------------------------------------------------
  // Running the query: filter the store, keep the first three, substitute age
  // ---------------------------------------------------------------------------

  /** The store's profiles that satisfy `w`, in store order. */
  function Select(w: Where, store: seq<Profile>): (r: seq<Profile>)
    ensures |r| <= |store|
    ensures forall p :: p in r <==> p in store && Matches(w, p)
  {
    if store == [] then []
    else (if Matches(w, store[0]) then [store[0]] else []) + Select(w, store[1..])
  }

  /** Selection distributes over concatenation of the store. */
  lemma {:induction false} SelectAppend(w: Where, a: seq<Profile>, b: seq<Profile>)
    ensures Select(w, a + b) == Select(w, a) + Select(w, b)
  {
    if a == [] {
      assert a + b == b;
    } else {
      assert (a + b)[1..] == a[1..] + b;
      SelectAppend(w, a[1..], b);
    }
  }

  /** The first `n` elements of `s`, or all of `s` when it is shorter. */
  function Take<T>(s: seq<T>, n: nat): (r: seq<T>)
    ensures |r| == if |s| < n then |s| else n
    ensures forall i :: 0 <= i < |r| ==> r[i] == s[i]
  {
    if |s| <= n then s else s[..n]
  }

  /** `{ birthday, ...rest }` rebuilt as `{ ...rest, age }`. */
  function WithAge(p: Profile, ageOf: Date -> int): (a: AgedProfile)
    ensures a.age == ageOf(p.birthday)
    ensures WithBirthday(a, p.birthday) == p
  {
    AgedProfile(p.id, p.userId, p.name, p.gender, p.sexualOrientation, p.bio, p.interests, p.purposes, ageOf(p.birthday))
  }

  /** The inverse projection: put a birthday back in place of the age. */
  function WithBirthday(a: AgedProfile, birthday: Date): Profile
  {
    Profile(a.id, a.userId, a.name, birthday, a.gender, a.sexualOrientation, a.bio, a.interests, a.purposes)
  }

  /**
    The `POST /` handler. With no filter stored for `profileId` there is no
    candidate list (`None`). Otherwise the reply is the first `MaxCandidates`
    store profiles the filter accepts, in store order, each with its birthday
    replaced by its age and every other field as stored.
  */
  method PostProfiles(filters: map<Id, Filter>, store: seq<Profile>, profileId: Id,
                      ageOf: Date -> int, dateOfAge: int -> Date)
    returns (reply: Option<seq<AgedProfile>>)
    ensures reply.None? <==> profileId !in filters
    ensures reply.Some? ==> |reply.value| <= MaxCandidates
    ensures reply.Some? ==>
      var matched := Select(BuildWhere(filters[profileId], profileId, dateOfAge), store);
      && |reply.value| == (if |matched| < MaxCandidates then |matched| else MaxCandidates)
      && forall i :: 0 <= i < |reply.value| ==> reply.value[i] == WithAge(matched[i], ageOf)
    ensures reply.Some? ==> forall i :: 0 <= i < |reply.value| ==>
      && reply.value[i].id != profileId
      && exists p :: p in store && Accepts(filters[profileId], profileId, dateOfAge, p) && reply.value[i] == WithAge(p, ageOf)
  {
    if profileId !in filters {
      return None;
    }
    var w := BuildWhere(filters[profileId], profileId, dateOfAge);
    var picked: seq<Profile> := [];
    var i := 0;
    while i < |store| && |picked| < MaxCandidates
      invariant 0 <= i <= |store|
      invariant picked == Select(w, store[..i])
      invariant |picked| <= MaxCandidates
    {
      assert store[..i + 1] == store[..i] + [store[i]];
      SelectAppend(w, store[..i], [store[i]]);
      if Matches(w, store[i]) {
        picked := picked + [store[i]];
      }
      i := i + 1;
    }
    assert store == store[..i] + store[i..];
    SelectAppend(w, store[..i], store[i..]);
    ghost var matched := Select(w, store);
    assert picked == Take(matched, MaxCandidates);
    var aged := seq(|picked|, k requires 0 <= k < |picked| => WithAge(picked[k], ageOf));
    forall k | 0 <= k < |aged|
      ensures exists p :: p in store && Accepts(filters[profileId], profileId, dateOfAge, p) && aged[k] == WithAge(p, ageOf)
    {
      assert matched[k] in matched;
    }
    reply := Some(aged);
  }

  /**
    A worked scenario: a filter for women aged 25 to 35 (every other criterion
    off), with a clock on which a birthday `d` means age `2026 - d`, admits only
    the 30-year-old of three women aged 20, 30 and 40.
  */
  lemma ThirtyYearOldOnlyScenario()
    ensures
      var f := Filter("Women", true, 25, 35, false, [], false, [], false, []);
      var p20 := Profile("p20", "u20", "A", 2006, "Woman", "Straight", "", [], []);
      var p30 := Profile("p30", "u30", "B", 1996, "Woman", "Straight", "", [], []);
      var p40 := Profile("p40", "u40", "C", 1986, "Woman", "Straight", "", [], []);
      Select(BuildWhere(f, "me", a => 2026 - a), [p20, p30, p40]) == [p30]
  {
    var f := Filter("Women", true, 25, 35, false, [], false, [], false, []);
    var p20 := Profile("p20", "u20", "A", 2006, "Woman", "Straight", "", [], []);
    var p30 := Profile("p30", "u30", "B", 1996, "Woman", "Straight", "", [], []);
    var p40 := Profile("p40", "u40", "C", 1986, "Woman", "Straight", "", [], []);
    var dateOfAge: int -> Date := a => 2026 - a;
    var w := BuildWhere(f, "me", dateOfAge);
    assert w.birthday == Some(DateRange(1991, 2001));
    assert [p20, p30, p40][1..] == [p30, p40] && [p30, p40][1..] == [p40] && [p40][1..] == [];
    assert Select(w, [p40]) == [] by { assert !Matches(w, p40); }
    assert Select(w, [p30, p40]) == [p30] by { assert Matches(w, p30); }
    assert !Matches(w, p20);
  }
}
