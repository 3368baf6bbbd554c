/** The records of the team/hero service: the rows of its two tables, the
    request bodies, the password transform and the pure parts of the
    handlers (the partial update, and the nulling of team references when a
    team goes away). */
module Models {
  import opened Outcomes

  /** A row of the team table; its id is the key the table stores it under. */
  datatype Team = Team(name: string, headquarters: string)

  /** A row of the hero table; its id is the key the table stores it under. */
  datatype Hero = Hero(name: string, age: Option<int>, secretName: string,
                       hashedPassword: string, teamId: Option<int>)

  /** The body of a hero creation request. */
  datatype HeroCreate = HeroCreate(name: string, age: Option<int>, teamId: Option<int>,
                                   secretName: string, password: string)

  /** One field of a partial-update body: left out of the request, or sent
      with a value (for a nullable field that value may itself be None). */
  datatype Patch<T> = Unset | Set(value: T)

  /** The body of a hero update request. */
  datatype HeroUpdate = HeroUpdate(name: Patch<string>, secretName: Patch<string>,
                                   age: Patch<Option<int>>, teamId: Patch<Option<int>>,
                                   password: Patch<string>)

  /** An update body that sends no field at all. */
  const NoChange: HeroUpdate := HeroUpdate(Unset, Unset, Unset, Unset, Unset)

  const HashPrefix: string := "#$%"

  /** The stored form of a hero's password: the password behind a fixed
      three-character prefix, from which it can be read back. */
  function HashPassword(password: string): (h: string)
    ensures |h| == |HashPrefix| + |password|
    ensures h[..|HashPrefix|] == HashPrefix
    ensures h[|HashPrefix|..] == password
  {
    HashPrefix + password
  }

  /** Two passwords have the same stored form only if they are the same. */
  lemma HashPasswordInjective(p: string, q: string)
    ensures HashPassword(p) == HashPassword(q) <==> p == q
  {
    if HashPassword(p) == HashPassword(q) {
      assert p == HashPassword(p)[|HashPrefix|..];
    }
  }

  /** The row a creation request stores: the request's fields, with the
      password replaced by its stored form. */
  function NewHero(c: HeroCreate): (h: Hero)
    ensures h.hashedPassword == HashPassword(c.password)
    ensures h.hashedPassword[|HashPrefix|..] == c.password
  {
    Hero(c.name, c.age, c.secretName, HashPassword(c.password), c.teamId)
  }

  /** The stored password forms of all heroes. */
  ghost function Hashes(heroes: map<int, Hero>): set<string>
  {
    set k | k in heroes :: heroes[k].hashedPassword
  }

  /** The stored form of every hero's password is among the stored forms. */
  lemma HashedIn(heroes: map<int, Hero>, id: int)
    requires id in heroes
    ensures heroes[id].hashedPassword in Hashes(heroes)
  {
  }

  /** No two heroes share a stored password form. */
  ghost predicate HashesUnique(heroes: map<int, Hero>)
  {
    forall a, b :: a in heroes && b in heroes && a != b ==>
      heroes[a].hashedPassword != heroes[b].hashedPassword
  }

  /** Adding a hero whose stored password form is not in use keeps the forms
      distinct. */
  lemma AddKeepsHashesUnique(heroes: map<int, Hero>, id: int, h: Hero)
    requires HashesUnique(heroes)
    requires h.hashedPassword !in Hashes(heroes)
    ensures HashesUnique(heroes[id := h])
  {
    var m := heroes[id := h];
    forall a, b | a in m && b in m && a != b
      ensures m[a].hashedPassword != m[b].hashedPassword
    {
      if a == id {
        assert m[b].hashedPassword in Hashes(heroes);
      } else if b == id {
        assert m[a].hashedPassword in Hashes(heroes);
      }
    }
  }

  /** What a field holds once a patch has been written over it: the value
      sent, or the current value when the field was not sent. */
  function Patched<T>(current: T, p: Patch<T>): (v: T)
    ensures p.Unset? ==> v == current
    ensures p.Set? ==> v == p.value
  {
    match p
    case Unset => current
    case Set(v) => v
  }

  /** A partial update of one hero: every field the body sends is written,
      every other field keeps its value, and the stored password form is
      never touched (the body's password is not a column of the row). */
  function ApplyUpdate(h: Hero, u: HeroUpdate): (r: Hero)
    ensures r.hashedPassword == h.hashedPassword
    ensures r.name == Patched(h.name, u.name)
    ensures r.secretName == Patched(h.secretName, u.secretName)
    ensures r.age == Patched(h.age, u.age)
    ensures r.teamId == Patched(h.teamId, u.teamId)
  {
    h.(name := Patched(h.name, u.name),
       secretName := Patched(h.secretName, u.secretName),
       age := Patched(h.age, u.age),
       teamId := Patched(h.teamId, u.teamId))
  }

  /** Sending the same partial update twice has the effect of sending it once. */
  lemma ApplyUpdateIdempotent(h: Hero, u: HeroUpdate)
    ensures ApplyUpdate(ApplyUpdate(h, u), u) == ApplyUpdate(h, u)
  {
  }

  /** An update that sends no field leaves the hero as it was. */
  lemma ApplyNoChange(h: Hero)
    ensures ApplyUpdate(h, NoChange) == h
  {
  }

  /** A partial update keeps the stored password forms distinct. */
  lemma UpdateKeepsHashesUnique(heroes: map<int, Hero>, id: int, u: HeroUpdate)
    requires HashesUnique(heroes) && id in heroes
    ensures HashesUnique(heroes[id := ApplyUpdate(heroes[id], u)])
  {
  }

  /** The password of an update body is accepted: the body sends none, or
      the stored form of the one it sends is the form the hero already has. */
  predicate PasswordAccepted(h: Hero, u: HeroUpdate)
    ensures u.password.Unset? ==> PasswordAccepted(h, u)
    ensures PasswordAccepted(h, u) && u.password.Set? ==>
      && |h.hashedPassword| == |HashPrefix| + |u.password.value|
      && h.hashedPassword[..|HashPrefix|] == HashPrefix
      && h.hashedPassword[|HashPrefix|..] == u.password.value
  {
    u.password.Unset? || HashPassword(u.password.value) == h.hashedPassword
  }

  /** Of all passwords an update body could send, only the hero's current
      one is accepted: an update can never change a hero's password. */
  lemma OnlyCurrentPasswordAccepted(h: Hero, u: HeroUpdate, current: string)
    requires h.hashedPassword == HashPassword(current)
    requires u.password.Set?
    ensures PasswordAccepted(h, u) <==> u.password.value == current
  {
    HashPasswordInjective(u.password.value, current);
  }

  /** The hero refers to one of the teams in `gone`. */
  predicate RefersTo(h: Hero, gone: set<int>)
  {
    h.teamId.Some? && h.teamId.value in gone
  }

  /** The hero table after the teams in `gone` are deleted: the team reference
      of every hero that pointed at one of them becomes None. */
  function NullTeamRefs(heroes: map<int, Hero>, gone: set<int>): (r: map<int, Hero>)
    ensures r.Keys == heroes.Keys
    ensures forall k :: k in r ==> !RefersTo(r[k], gone)
    ensures forall k :: k in r ==> RefersTo(heroes[k], gone) ==> r[k].teamId == None
    ensures forall k :: k in r ==> !RefersTo(heroes[k], gone) ==> r[k] == heroes[k]
    ensures forall k :: k in r ==> r[k] == heroes[k].(teamId := r[k].teamId)
  {
    map k | k in heroes :: if RefersTo(heroes[k], gone) then heroes[k].(teamId := None) else heroes[k]
  }

  /** Deleting teams one batch after another nulls the same references as
      deleting them all at once. */
  lemma NullTeamRefsTwice(heroes: map<int, Hero>, a: set<int>, b: set<int>)
    ensures NullTeamRefs(NullTeamRefs(heroes, a), b) == NullTeamRefs(heroes, a + b)
  {
    var once := NullTeamRefs(heroes, a);
    var both := NullTeamRefs(heroes, a + b);
    var twice := NullTeamRefs(once, b);
    forall k | k in heroes ensures twice[k] == both[k] {
      if RefersTo(heroes[k], a) {
        assert once[k].teamId == None;
      } else if RefersTo(heroes[k], b) {
        assert once[k] == heroes[k];
      } else {
        assert !RefersTo(heroes[k], a + b);
      }
    }
  }

  /** Nulling team references keeps the stored password forms distinct. */
  lemma NullTeamRefsKeepsHashesUnique(heroes: map<int, Hero>, gone: set<int>)
    requires HashesUnique(heroes)
    ensures HashesUnique(NullTeamRefs(heroes, gone))
  {
  }
}
