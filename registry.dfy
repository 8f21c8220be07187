/** The activity registry of src/app.py: an in-memory map from activity
    name to activity, seeded with the school's nine activities, and the two
    operations that change it, signing a student up and unregistering one.

    Each operation is a pure function from the old map to a result, which
    fixes the order of its checks and its new state; the `Registry` class
    holds the map as a mutable field and its methods perform the same
    checks and the same update in place. */
module Activities {
  import opened EmailValidation

  datatype Option<T> = None | Some(value: T)

  /** One activity. The description and the schedule are carried as data;
      no operation reads them. */
  datatype Activity = Activity(
    description: string,
    schedule: string,
    maxParticipants: nat,
    participants: seq<string>)

  /** Why an operation was refused, one value per `HTTPException` raised. */
  datatype Error =
    | InvalidEmail
    | ActivityNotFound
    | AlreadyEnrolled
    | ActivityFull
    | EmailRequired
    | NotEnrolled
  {
    /** The HTTP status code the source attaches to the error. */
    function StatusCode(): (code: nat)
      ensures code == 400 || code == 404
      ensures code == 404 <==> this == ActivityNotFound
    {
      if this == ActivityNotFound then 404 else 400
    }

    /** The `detail` text the source attaches to the error. */
    function Detail(): (d: string)
      ensures d != []
    {
      match this
      case InvalidEmail => "Invalid email format"
      case ActivityNotFound => "Activity not found"
      case AlreadyEnrolled => "Student already signed up"
      case ActivityFull => "Activity is full"
      case EmailRequired => "Email is required"
      case NotEnrolled => "Student not registered for this activity"
    }
  }

  /** Each error has its own `detail` text. */
  lemma DetailsDistinct(a: Error, b: Error)
    ensures a.Detail() == b.Detail() <==> a == b
  {
  }

  datatype Result<T> = Ok(value: T) | Err(error: Error)

  /** What a request gets back: the success message or the error. */
  datatype Response = Success(message: string) | Failure(error: Error)

  type Catalog = map<string, Activity>

  // ---------------------------------------------------------------------
  // Invariants.

  /** No email is on the roster twice. */
  predicate NoDuplicates(s: seq<string>) {
    forall i, j :: 0 <= i < j < |s| ==> s[i] != s[j]
  }

  /** The roster fits the capacity and holds each student once. */
  predicate ActivityValid(a: Activity) {
    |a.participants| <= a.maxParticipants && NoDuplicates(a.participants)
  }

  predicate CatalogValid(db: Catalog) {
    forall name | name in db :: ActivityValid(db[name])
  }

  // ---------------------------------------------------------------------
  // The seed data.

  const ChessClub := "Chess Club"
  const ProgrammingClass := "Programming Class"
  const GymClass := "Gym Class"
  const SoccerTeam := "Soccer Team"
  const BasketballTeam := "Basketball Team"
  const ArtClub := "Art Club"
  const DramaClub := "Drama Club"
  const DebateClub := "Debate Club"
  const ScienceClub := "Science Club"

  /** The seeded activities. Every seeded address is at the school's
      domain, so the rosters are written with `AtSchool`; `AtSchoolSpelling`
      shows that `AtSchool("michael")` is `"michael@mergington.edu"`. */
  const ChessActivity := Activity(
    "Learn strategies and compete in chess tournaments",
    "Fridays, 3:30 PM - 5:00 PM",
    12, [AtSchool("michael"), AtSchool("daniel")])
  const ProgrammingActivity := Activity(
    "Learn programming fundamentals and build software projects",
    "Tuesdays and Thursdays, 3:30 PM - 4:30 PM",
    20, [AtSchool("emma"), AtSchool("sophia")])
  const GymActivity := Activity(
    "Physical education and sports activities",
    "Mondays, Wednesdays, Fridays, 2:00 PM - 3:00 PM",
    30, [AtSchool("john"), AtSchool("olivia")])
  const SoccerActivity := Activity(
    "Competitive soccer training and matches",
    "Tuesdays and Thursdays, 4:00 PM - 5:30 PM",
    22, [AtSchool("lucas"), AtSchool("mia")])
  const BasketballActivity := Activity(
    "Basketball skills training and league games",
    "Wednesdays and Fridays, 3:30 PM - 5:00 PM",
    15, [AtSchool("james"), AtSchool("ava")])
  const ArtActivity := Activity(
    "Explore painting, drawing, and other visual arts",
    "Mondays, 3:30 PM - 5:00 PM",
    15, [AtSchool("lily"), AtSchool("noah")])
  const DramaActivity := Activity(
    "Theater performance, acting, and stagecraft",
    "Tuesdays and Thursdays, 4:00 PM - 6:00 PM",
    25, [AtSchool("isabella"), AtSchool("ethan")])
  const DebateActivity := Activity(
    "Practice public speaking and argumentation skills",
    "Wednesdays, 3:30 PM - 5:00 PM",
    16, [AtSchool("charlotte"), AtSchool("william")])
  const ScienceActivity := Activity(
    "Conduct experiments and explore scientific concepts",
    "Fridays, 3:30 PM - 5:00 PM",
    18, [AtSchool("amelia"), AtSchool("benjamin")])

  /** The nine activities the application starts with. */
  function SeedCatalog(): (db: Catalog)
    ensures db.Keys == {ChessClub, ProgrammingClass, GymClass, SoccerTeam,
      BasketballTeam, ArtClub, DramaClub, DebateClub, ScienceClub}
  {
    map[
      ChessClub := ChessActivity,
      ProgrammingClass := ProgrammingActivity,
      GymClass := GymActivity,
      SoccerTeam := SoccerActivity,
      BasketballTeam := BasketballActivity,
      ArtClub := ArtActivity,
      DramaClub := DramaActivity,
      DebateClub := DebateActivity,
      ScienceClub := ScienceActivity
    ]
  }

  // ---------------------------------------------------------------------
  // `list.remove`.

  /** `s.index(x)`: the position of the first occurrence of `x`. */
  function IndexOf(s: seq<string>, x: string): (i: nat)
    requires x in s
    ensures i < |s| && s[i] == x && x !in s[..i]
  {
    if s[0] == x then 0
    else
      var i := IndexOf(s[1..], x);
      assert s[..i + 1] == [s[0]] + s[1..][..i];
      i + 1
  }

  /** `s.remove(x)` on a copy: drops one occurrence of `x`. Python raises
      `ValueError` when `x` does not occur in `s`; unregistering refuses such
      an email before it removes anything, so that case never arises there,
      and the value given for it here (`s` itself) stands for nothing. */
  function RemoveFirst(s: seq<string>, x: string): (r: seq<string>)
    ensures x !in s ==> r == s
    ensures x in s ==> |r| == |s| - 1
  {
    if s == [] then []
    else if s[0] == x then
      assert s == [s[0]] + s[1..];
      s[1..]
    else
      assert s == [s[0]] + s[1..];
      [s[0]] + RemoveFirst(s[1..], x)
  }

  /** The occurrence `RemoveFirst` drops is the first one: when `s[i]` is
      the first `x`, the result is `s` without position `i`. */
  lemma {:induction false} RemoveFirstAt(s: seq<string>, x: string, i: nat)
    requires i < |s| && s[i] == x && x !in s[..i]
    ensures RemoveFirst(s, x) == s[..i] + s[i + 1..]
    decreases i
  {
    if i == 0 {
      assert s[..0] + s[1..] == s[1..];
    } else {
      var t := s[1..];
      assert s[0] != x by { assert s[0] == s[..i][0]; }
      assert t[..i - 1] == s[1..i];
      RemoveFirstAt(t, x, i - 1);
      assert t[i..] == s[i + 1..];
      assert [s[0]] + s[1..i] == s[..i];
    }
  }

  /** `RemoveFirst` takes away exactly one copy of `x`, and nothing else. */
  lemma {:induction false} RemoveFirstMultiset(s: seq<string>, x: string)
    ensures multiset(RemoveFirst(s, x)) == multiset(s) - multiset{x}
    decreases |s|
  {
    if s != [] {
      var t := s[1..];
      assert s == [s[0]] + t;
      assert multiset(s) == multiset{s[0]} + multiset(t);
      if s[0] != x {
        RemoveFirstMultiset(t, x);
        assert multiset(RemoveFirst(s, x)) == multiset{s[0]} + multiset(RemoveFirst(t, x));
      }
    }
  }

  // ---------------------------------------------------------------------
  // The operations, as functions of the old catalog.

  /** `signup_for_activity`: the email must validate, the activity must
      exist, the student must not be on its roster and the roster must have
      room, checked in that order; then the email goes at the end of the
      roster. */
  function Signup(db: Catalog, name: string, email: string): (r: Result<Catalog>)
    ensures !ValidateEmail(email) ==> r == Err(InvalidEmail)
    ensures ValidateEmail(email) && name !in db ==> r == Err(ActivityNotFound)
    ensures ValidateEmail(email) && name in db && email in db[name].participants ==> r == Err(AlreadyEnrolled)
    ensures (ValidateEmail(email) && name in db && email !in db[name].participants
      && |db[name].participants| >= db[name].maxParticipants) ==> r == Err(ActivityFull)
    ensures r.Ok? <==>
      ValidateEmail(email) && name in db && email !in db[name].participants
      && |db[name].participants| < db[name].maxParticipants
    ensures r.Ok? ==>
      && r.value.Keys == db.Keys
      && r.value[name].participants == db[name].participants + [email]
      && r.value[name].maxParticipants == db[name].maxParticipants
      && r.value[name].description == db[name].description
      && r.value[name].schedule == db[name].schedule
      && (forall other | other in db && other != name :: r.value[other] == db[other])
  {
    if !ValidateEmail(email) then Err(InvalidEmail)
    else if name !in db then Err(ActivityNotFound)
    else
      var activity := db[name];
      if email in activity.participants then Err(AlreadyEnrolled)
      else if |activity.participants| >= activity.maxParticipants then Err(ActivityFull)
      else Ok(db[name := activity.(participants := activity.participants + [email])])
  }

  /** `data.get("email")` is missing or empty. */
  function Missing(email: Option<string>): (m: bool)
    ensures !m ==> email.Some? && email.value != []
  {
    email.None? || email.value == ""
  }

  /** `unregister_from_activity`: an email must be given, the activity must
      exist and the student must be on its roster, checked in that order;
      then the first occurrence of the email leaves the roster. */
  function Unregister(db: Catalog, name: string, email: Option<string>): (r: Result<Catalog>)
    ensures Missing(email) ==> r == Err(EmailRequired)
    ensures !Missing(email) && name !in db ==> r == Err(ActivityNotFound)
    ensures !Missing(email) && name in db && email.value !in db[name].participants ==> r == Err(NotEnrolled)
    ensures r.Ok? <==> !Missing(email) && name in db && email.value in db[name].participants
    ensures r.Ok? ==>
      && r.value.Keys == db.Keys
      && multiset(r.value[name].participants) == multiset(db[name].participants) - multiset{email.value}
      && |r.value[name].participants| == |db[name].participants| - 1
      && r.value[name].maxParticipants == db[name].maxParticipants
      && r.value[name].description == db[name].description
      && r.value[name].schedule == db[name].schedule
      && (forall other | other in db && other != name :: r.value[other] == db[other])
  {
    if Missing(email) then Err(EmailRequired)
    else if name !in db then Err(ActivityNotFound)
    else
      var activity := db[name];
      if email.value !in activity.participants then Err(NotEnrolled)
      else
        RemoveFirstMultiset(activity.participants, email.value);
        Ok(db[name := activity.(participants := RemoveFirst(activity.participants, email.value))])
  }

  // ---------------------------------------------------------------------
  // Properties of the operations.

  /** The seed catalog holds exactly the nine activities, each within its
      capacity and without duplicates. */
  lemma SeedCatalogValid()
    ensures SeedCatalog().Keys == {ChessClub, ProgrammingClass, GymClass, SoccerTeam,
      BasketballTeam, ArtClub, DramaClub, DebateClub, ScienceClub}
    ensures CatalogValid(SeedCatalog())
  {
    var db := SeedCatalog();
    forall name | name in db ensures ActivityValid(db[name]) {
      SeedActivityValid(db[name]);
    }
  }

  /** Two addresses at the school with different first letters differ. */
  lemma AtSchoolDistinct(a: string, b: string)
    requires a != [] && b != [] && a[0] != b[0]
    ensures AtSchool(a) != AtSchool(b)
  {
    assert AtSchool(a)[0] == a[0] && AtSchool(b)[0] == b[0];
  }

  /** Each seeded activity is within capacity and without duplicates. */
  lemma SeedActivityValid(a: Activity)
    requires a in SeedCatalog().Values
    ensures ActivityValid(a)
  {
    AtSchoolDistinct("michael", "daniel");
    AtSchoolDistinct("emma", "sophia");
    AtSchoolDistinct("john", "olivia");
    AtSchoolDistinct("lucas", "mia");
    AtSchoolDistinct("james", "ava");
    AtSchoolDistinct("lily", "noah");
    AtSchoolDistinct("isabella", "ethan");
    AtSchoolDistinct("charlotte", "william");
    AtSchoolDistinct("amelia", "benjamin");
  }

  /** Adding a student who is not on the roster keeps it free of duplicates. */
  lemma NoDuplicatesAppend(s: seq<string>, x: string)
    requires NoDuplicates(s) && x !in s
    ensures NoDuplicates(s + [x])
  {
    var t := s + [x];
    forall i, j | 0 <= i < j < |t| ensures t[i] != t[j] {
      if j < |s| {
        assert t[i] == s[i] && t[j] == s[j];
      } else {
        assert t[i] == s[i];
      }
    }
  }

  /** Dropping an element keeps a roster free of duplicates. */
  lemma NoDuplicatesRemove(s: seq<string>, i: nat)
    requires NoDuplicates(s) && i < |s|
    ensures NoDuplicates(s[..i] + s[i + 1..])
  {
    var t := s[..i] + s[i + 1..];
    forall a, b | 0 <= a < b < |t| ensures t[a] != t[b] {
      var a' := if a < i then a else a + 1;
      var b' := if b < i then b else b + 1;
      assert t[a] == s[a'] && t[b] == s[b'];
    }
  }

  /** On a roster without duplicates, removing an email removes it entirely. */
  lemma RemoveFirstRemoves(s: seq<string>, x: string)
    requires NoDuplicates(s)
    ensures NoDuplicates(RemoveFirst(s, x))
    ensures x !in RemoveFirst(s, x)
  {
    if x in s {
      var i := IndexOf(s, x);
      RemoveFirstAt(s, x, i);
      NoDuplicatesRemove(s, i);
      var t := s[..i] + s[i + 1..];
      forall k | 0 <= k < |t| ensures t[k] != x {
        if k < i { assert t[k] == s[k]; } else { assert t[k] == s[k + 1]; }
      }
    }
  }

  /** A successful signup keeps every roster within capacity and free of duplicates. */
  lemma SignupPreservesValid(db: Catalog, name: string, email: string)
    requires CatalogValid(db)
    ensures Signup(db, name, email).Ok? ==> CatalogValid(Signup(db, name, email).value)
  {
    if Signup(db, name, email).Ok? {
      NoDuplicatesAppend(db[name].participants, email);
    }
  }

  /** A successful unregister keeps every roster within capacity and free of
      duplicates, and the student is no longer on the roster. */
  lemma UnregisterPreservesValid(db: Catalog, name: string, email: Option<string>)
    requires CatalogValid(db)
    ensures Unregister(db, name, email).Ok? ==> CatalogValid(Unregister(db, name, email).value)
    ensures Unregister(db, name, email).Ok? ==>
      email.value !in Unregister(db, name, email).value[name].participants
  {
    if Unregister(db, name, email).Ok? {
      RemoveFirstRemoves(db[name].participants, email.value);
    }
  }

  /** A successful unregister takes the email out at its first position on
      the roster and keeps the order of everyone else. */
  lemma UnregisterRemovesFirst(db: Catalog, name: string, email: string)
    requires Unregister(db, name, Some(email)).Ok?
    ensures var p := db[name].participants; var i := IndexOf(p, email);
      Unregister(db, name, Some(email)).value[name].participants == p[..i] + p[i + 1..]
  {
    var p := db[name].participants;
    RemoveFirstAt(p, email, IndexOf(p, email));
  }

  /** On a valid catalog a student who is not enrolled is turned away as full
      exactly when the roster has reached its capacity. */
  lemma FullMeansAtCapacity(db: Catalog, name: string, email: string)
    requires CatalogValid(db) && name in db
    requires ValidateEmail(email) && email !in db[name].participants
    ensures Signup(db, name, email) == Err(ActivityFull) <==>
      |db[name].participants| == db[name].maxParticipants
  {
    assert ActivityValid(db[name]);
  }

  /** Removing an email just appended to a roster that did not hold it gives
      the roster back. */
  lemma {:induction false} RemoveFirstAppend(s: seq<string>, x: string)
    requires x !in s
    ensures RemoveFirst(s + [x], x) == s
    decreases |s|
  {
    if s == [] {
      assert [x][1..] == [];
    } else {
      assert (s + [x])[1..] == s[1..] + [x];
      RemoveFirstAppend(s[1..], x);
      assert [s[0]] + s[1..] == s;
    }
  }

  /** Signing a student up and then unregistering the same email gives back
      the catalog as it was. */
  lemma SignupThenUnregister(db: Catalog, name: string, email: string)
    requires Signup(db, name, email).Ok?
    ensures Unregister(Signup(db, name, email).value, name, Some(email)) == Ok(db)
  {
    assert email != [] && name in db && email !in db[name].participants;
    UnregisterAppended(db, name, email);
  }

  /** Unregistering the email at the end of a roster that held it only there
      gives back the catalog without it. */
  lemma UnregisterAppended(db: Catalog, name: string, email: string)
    requires name in db && email != "" && email !in db[name].participants
    ensures var a := db[name];
      Unregister(db[name := a.(participants := a.participants + [email])], name, Some(email)) == Ok(db)
  {
    var a := db[name];
    var db' := db[name := a.(participants := a.participants + [email])];
    RemoveFirstAppend(a.participants, email);
    assert db'[name].(participants := a.participants) == a;
    assert db'[name := a] == db;
  }

  // ---------------------------------------------------------------------
  // The seed catalog against the source's tests.

  lemma SeedChessClub()
    ensures ChessClub in SeedCatalog()
    ensures SeedCatalog()[ChessClub].participants == [AtSchool("michael"), AtSchool("daniel")]
    ensures SeedCatalog()[ChessClub].participants == ["michael@mergington.edu", "daniel@mergington.edu"]
    ensures SeedCatalog()[ChessClub].maxParticipants == 12
  {
    ChessRosterSpelling();
  }

  /** The Chess Club's seeded students, written out. */
  lemma ChessRosterSpelling()
    ensures [AtSchool("michael"), AtSchool("daniel")] == ["michael@mergington.edu", "daniel@mergington.edu"]
  {
    SchoolAddress("michael", "michael@mergington.edu");
    SchoolAddress("daniel", "daniel@mergington.edu");
  }

  /** Signing up a student already on the Chess Club roster is refused. */
  lemma SignupDuplicateRefused(email: string)
    requires email == "michael@mergington.edu"
    ensures Signup(SeedCatalog(), ChessClub, email) == Err(AlreadyEnrolled)
  {
    AtSchoolSpelling("michael");
    SeedChessClub();
    AcceptedAtSchool("michael");
  }

  /** Unregistering a student who is not on the Chess Club roster is refused. */
  lemma UnregisterNotEnrolledRefused(email: string)
    requires email == "notregistered@mergington.edu"
    ensures Unregister(SeedCatalog(), ChessClub, Some(email)) == Err(NotEnrolled)
  {
    AtSchoolSpelling("notregistered");
    SeedChessClub();
    AtSchoolDistinct("notregistered", "michael");
    AtSchoolDistinct("notregistered", "daniel");
  }

  /** A valid address not yet on the Chess Club roster is added at its end. */
  lemma SignupChessClub(email: string)
    requires ValidateEmail(email) && email != AtSchool("michael") && email != AtSchool("daniel")
    ensures Signup(SeedCatalog(), ChessClub, email).Ok?
    ensures Signup(SeedCatalog(), ChessClub, email).value[ChessClub].participants
      == [AtSchool("michael"), AtSchool("daniel"), email]
  {
    SeedChessClub();
  }

  /** A new student signs up for the Chess Club and lands at the end of its
      roster; unregistering the same email restores the seed catalog. */
  lemma SignupAndUnregisterNewStudent()
    ensures Signup(SeedCatalog(), ChessClub, AtSchool("testuser")).Ok?
    ensures Signup(SeedCatalog(), ChessClub, AtSchool("testuser")).value[ChessClub].participants
      == [AtSchool("michael"), AtSchool("daniel"), AtSchool("testuser")]
    ensures Unregister(Signup(SeedCatalog(), ChessClub, AtSchool("testuser")).value,
      ChessClub, Some(AtSchool("testuser"))) == Ok(SeedCatalog())
  {
    NewStudentRoundTrip("testuser", AtSchool("testuser"));
    SeedChessClub();
  }

  /** A school address not on the seeded Chess Club roster signs up at its
      end, and unregistering it restores the seed catalog. */
  lemma NewStudentRoundTrip(local: string, email: string)
    requires IsLocalPart(local) && local[0] != 'm' && local[0] != 'd' && email == AtSchool(local)
    ensures Signup(SeedCatalog(), ChessClub, email).Ok?
    ensures Signup(SeedCatalog(), ChessClub, email).value[ChessClub].participants
      == SeedCatalog()[ChessClub].participants + [email]
    ensures Unregister(Signup(SeedCatalog(), ChessClub, email).value,
      ChessClub, Some(email)) == Ok(SeedCatalog())
  {
    SeedChessClub();
    AcceptedAtSchool(local);
    AtSchoolDistinct(local, "michael");
    AtSchoolDistinct(local, "daniel");
    SignupChessClub(email);
    SignupThenUnregister(SeedCatalog(), ChessClub, email);
  }

  /** An absent or empty email is refused before the activity is looked up. */
  lemma UnregisterMissingEmailRefused(db: Catalog, name: string)
    ensures Unregister(db, name, None) == Err(EmailRequired)
    ensures Unregister(db, name, Some("")) == Err(EmailRequired)
  {
  }

  // ---------------------------------------------------------------------
  // The registry as the application holds it: one mutable map.

  class Registry {
    var activities: Catalog

    ghost predicate Valid()
      reads this
    {
      CatalogValid(activities)
    }

    /** The registry as the application starts. */
    constructor ()
      ensures Valid() && activities == SeedCatalog()
    {
      activities := SeedCatalog();
      SeedCatalogValid();
    }

    /** `signup_for_activity`, changing the registry in place. */
    method SignupForActivity(name: string, email: string) returns (r: Response)
      requires Valid()
      modifies this
      ensures Valid()
      ensures Signup(old(activities), name, email).Ok? ==>
        && activities == Signup(old(activities), name, email).value
        && r == Success("Signed up " + email + " for " + name)
      ensures Signup(old(activities), name, email).Err? ==>
        && activities == old(activities)
        && r == Failure(Signup(old(activities), name, email).error)
    {
      SignupPreservesValid(activities, name, email);
      if !ValidateEmail(email) {
        return Failure(InvalidEmail);
      }
      if name !in activities {
        return Failure(ActivityNotFound);
      }
      var activity := activities[name];
      if email in activity.participants {
        return Failure(AlreadyEnrolled);
      }
      if |activity.participants| >= activity.maxParticipants {
        return Failure(ActivityFull);
      }
      activities := activities[name := activity.(participants := activity.participants + [email])];
      r := Success("Signed up " + email + " for " + name);
    }

    /** `unregister_from_activity`, changing the registry in place. */
    method UnregisterFromActivity(name: string, email: Option<string>) returns (r: Response)
      requires Valid()
      modifies this
      ensures Valid()
      ensures Unregister(old(activities), name, email).Ok? ==>
        && activities == Unregister(old(activities), name, email).value
        && r == Success("Unregistered " + email.value + " from " + name)
      ensures Unregister(old(activities), name, email).Err? ==>
        && activities == old(activities)
        && r == Failure(Unregister(old(activities), name, email).error)
    {
      UnregisterPreservesValid(activities, name, email);
      if email.None? || email.value == "" {
        return Failure(EmailRequired);
      }
      if name !in activities {
        return Failure(ActivityNotFound);
      }
      var activity := activities[name];
      if email.value !in activity.participants {
        return Failure(NotEnrolled);
      }
      activities := activities[name := activity.(participants := RemoveFirst(activity.participants, email.value))];
      r := Success("Unregistered " + email.value + " from " + name);
    }
  }
}
