/** The guard on distinct values: per project and field a bounded set of remembered
    values, and one counter over all of them kept within a budget. */
module Cardinality {

  const OVERFLOW := "<cardinality-limit>"
  const MAX_SAMPLES := 5
  const MAX_PROJECTS := 2000
  const MAX_FIELDS := 200
  const DEFAULT_TRACKED := 0x100000

  datatype Field = Field(seen: set<string>, collapsed: nat, samples: seq<string>)

  datatype Project = Project(windowStart: int, fields: map<string, Field>)

  const NEW_FIELD := Field({}, 0, [])

  // ----- what is remembered -----

  type Value = (int, string, string)

  ghost function Of(id: int, p: Project): set<Value> {
    set f, v | f in p.fields && v in p.fields[f].seen :: (id, f, v)
  }

  /** Every remembered value, with its project and field. */
  ghost function Remembered(projects: map<int, Project>): set<Value> {
    set id, f, v | id in projects && f in projects[id].fields && v in projects[id].fields[f].seen :: (id, f, v)
  }

  function Get(p: Project, field: string): Field {
    if field in p.fields then p.fields[field] else NEW_FIELD
  }

  lemma InOf(id: int, p: Project, field: string, value: string)
    ensures (id, field, value) in Of(id, p) <==> value in Get(p, field).seen
  {
  }

  lemma Members(id: int, p: Project, x: Value)
    ensures x in Of(id, p) <==> x.0 == id && x.2 in Get(p, x.1).seen
  {
    InOf(id, p, x.1, x.2);
    var (i, f, v) := x;
    assert x == (i, f, v);
  }

  lemma InRemembered(projects: map<int, Project>, x: Value)
    ensures x in Remembered(projects) <==> x.0 in projects && x.2 in Get(projects[x.0], x.1).seen
  {
    var (i, f, v) := x;
    assert x == (i, f, v);
    if i in projects && v in Get(projects[i], f).seen {
      assert f in projects[i].fields && v in projects[i].fields[f].seen;
    }
  }

  lemma Apart(a: set<Value>, b: set<Value>)
    requires a !! b
    ensures |a + b| == |a| + |b|
  {
  }

  lemma OfProject(projects: map<int, Project>, id: int)
    requires id in projects
    ensures Of(id, projects[id]) <= Remembered(projects)
    ensures Remembered(projects - {id}) == Remembered(projects) - Of(id, projects[id])
    ensures |Remembered(projects - {id})| == |Remembered(projects)| - |Of(id, projects[id])|
  {
    var all, rest, one := Remembered(projects), Remembered(projects - {id}), Of(id, projects[id]);
    hide Of, Remembered;
    forall x ensures (x in all <==> x in rest || x in one) && !(x in rest && x in one) {
      InRemembered(projects, x);
      InRemembered(projects - {id}, x);
      Members(id, projects[id], x);
    }
    assert all == rest + one;
    Apart(rest, one);
  }

  /** Replacing a project's entry, or adding one, changes the total by its own difference. */
  lemma Replaced(projects: map<int, Project>, id: int, p: Project)
    ensures Remembered(projects[id := p]) == Remembered(projects - {id}) + Of(id, p)
    ensures |Remembered(projects[id := p])| ==
            |Remembered(projects)| - (if id in projects then |Of(id, projects[id])| else 0) + |Of(id, p)|
  {
    hide Of, Remembered;
    var later, rest, one := Remembered(projects[id := p]), Remembered(projects - {id}), Of(id, p);
    forall x ensures (x in later <==> x in rest || x in one) && !(x in rest && x in one) {
      InRemembered(projects[id := p], x);
      InRemembered(projects - {id}, x);
      Members(id, p, x);
    }
    assert later == rest + one;
    Apart(rest, one);
    if id in projects {
      OfProject(projects, id);
    } else {
      assert projects - {id} == projects;
    }
  }

  lemma EmptyProject(id: int, p: Project)
    requires forall f :: f in p.fields ==> p.fields[f].seen == {}
    ensures Of(id, p) == {}
  {
  }

  /** A field changes, or appears, with the same values. */
  lemma SameValues(id: int, p: Project, field: string, f: Field)
    requires f.seen == Get(p, field).seen
    ensures Of(id, p.(fields := p.fields[field := f])) == Of(id, p)
  {
    hide Of;
    var p' := p.(fields := p.fields[field := f]);
    forall x ensures x in Of(id, p') <==> x in Of(id, p) {
      Members(id, p', x);
      Members(id, p, x);
    }
  }

  lemma NewValue(id: int, p: Project, field: string, f: Field, value: string)
    requires f.seen == Get(p, field).seen + {value} && value !in Get(p, field).seen
    ensures Of(id, p.(fields := p.fields[field := f])) == Of(id, p) + {(id, field, value)}
    ensures |Of(id, p.(fields := p.fields[field := f]))| == |Of(id, p)| + 1
  {
    hide Of;
    var p' := p.(fields := p.fields[field := f]);
    Members(id, p, (id, field, value));
    forall x ensures x in Of(id, p') <==> x in Of(id, p) || x == (id, field, value) {
      Members(id, p', x);
      Members(id, p, x);
    }
    Apart(Of(id, p), {(id, field, value)});
    assert Of(id, p') == Of(id, p) + {(id, field, value)};
  }

  ghost function OfFields(id: int, p: Project, names: set<string>): set<Value> {
    set f, v | f in names && f in p.fields && v in p.fields[f].seen :: (id, f, v)
  }

  lemma OneFieldMore(id: int, p: Project, names: set<string>, f: string)
    requires f in p.fields && f !in names
    ensures |OfFields(id, p, names + {f})| == |OfFields(id, p, names)| + |p.fields[f].seen|
  {
    var before, after, own := OfFields(id, p, names), OfFields(id, p, names + {f}), set v | v in p.fields[f].seen :: (id, f, v);
    assert after == before + own && before !! own;
    Tagged(id, f, p.fields[f].seen);
  }

  lemma Tagged(id: int, f: string, vs: set<string>)
    ensures |set v | v in vs :: (id, f, v)| == |vs|
    decreases vs
  {
    var tagged := set v | v in vs :: (id, f, v);
    if v :| v in vs {
      Tagged(id, f, vs - {v});
      assert tagged == (set u | u in vs - {v} :: (id, f, u)) + {(id, f, v)};
    } else {
      assert tagged == {};
    }
  }

  /** Adds up the sizes field by field. */
  method TrackedValues(ghost id: int, p: Project) returns (n: nat)
    ensures n == |Of(id, p)|
  {
    n := 0;
    var left := p.fields.Keys;
    ghost var done: set<string> := {};
    assert OfFields(id, p, {}) == {};
    while left != {}
      invariant left !! done && left + done == p.fields.Keys && n == |OfFields(id, p, done)|
      decreases |left|
    {
      assert (forall x: string :: x !in left) ==> left == {};
      var f: string :| f in left;
      OneFieldMore(id, p, done, f);
      left, done := left - {f}, done + {f};
      n := n + |p.fields[f].seen|;
    }
    assert OfFields(id, p, done) == Of(id, p);
  }

  class Guard {
    const limit: int
    const maxTracked: int
    const window: int
    var tracked: int
    var projects: map<int, Project>
    var collapsedTotal: nat
    /** Values given back as they came since their project's last reset. */
    ghost var answered: set<Value>

    function Budget(): (b: int)
      ensures b == maxTracked || (maxTracked <= 0 && b == 1048576)
      ensures b > 0
    {
      if maxTracked <= 0 then DEFAULT_TRACKED else maxTracked
    }

    ghost predicate Within(p: Project) {
      |p.fields| <= MAX_FIELDS && forall f :: f in p.fields ==> |p.fields[f].seen| <= limit && |p.fields[f].samples| <= MAX_SAMPLES
    }

    ghost predicate Valid()
      reads this
    {
      && window > 0
      && tracked == |Remembered(projects)| && tracked <= Budget()
      && |projects| <= MAX_PROJECTS
      && (forall id :: id in projects ==> limit > 0 && Within(projects[id]))
      && answered <= Remembered(projects)
    }

    constructor (limit: int, maxTracked: int, window: int)
      requires window > 0
      ensures Valid() && this.limit == limit && this.maxTracked == maxTracked && this.window == window && projects == map[]
    {
      this.limit, this.maxTracked, this.window := limit, maxTracked, window;
      tracked, projects, collapsedTotal, answered := 0, map[], 0, {};
      new;
      assert Remembered(projects) == {};
    }

    predicate Over(p: Project, now: int) {
      now - p.windowStart >= window
    }

    method Remove(id: int)
      requires Valid() && id in projects
      modifies this`projects, this`tracked, this`answered
      ensures Valid() && projects == old(projects) - {id} && |projects| == |old(projects)| - 1
      ensures answered == set x | x in old(answered) && x.0 != id
    {
      OfProject(projects, id);
      assert (projects - {id}).Keys == projects.Keys - {id};
      var n := TrackedValues(id, projects[id]);
      ghost var kept := set x | x in answered && x.0 != id;
      assert kept <= Remembered(projects) - Of(id, projects[id]);
      hide Remembered, Of, Within;
      tracked := tracked - n;
      projects := projects - {id};
      answered := kept;
    }

    /** Forgets the projects whose window is over. */
    method DropExpired(now: int)
      requires Valid()
      modifies this`projects, this`tracked, this`answered
      ensures Valid() && projects.Keys <= old(projects).Keys
      ensures forall id :: id in projects <==> id in old(projects) && !Over(old(projects)[id], now)
      ensures forall id :: id in projects ==> projects[id] == old(projects)[id]
      ensures answered == set x | x in old(answered) && x.0 in projects
    {
      hide Remembered, Of, Within;
      var left := projects.Keys;
      AnsweredAreKnown(projects, answered);
      while left != {}
        invariant Valid() && left <= projects.Keys <= old(projects).Keys
        invariant forall id :: id in old(projects) ==> (id in projects <==> id in left || !Over(old(projects)[id], now))
        invariant forall id :: id in projects ==> projects[id] == old(projects)[id]
        invariant answered == set x | x in old(answered) && x.0 in projects
        decreases |left|
      {
        assert (forall x: int :: x !in left) ==> left == {};
        var id: int :| id in left;
        left := left - {id};
        if Over(projects[id], now) {
          Remove(id);
        }
      }
    }

    /** Makes room for a project: the expired ones go, else a tenth of all, any. */
    method Evict(now: int)
      requires Valid()
      modifies this`projects, this`tracked, this`answered
      ensures Valid() && |projects| < MAX_PROJECTS && projects.Keys <= old(projects).Keys
      ensures forall id :: id in projects ==> projects[id] == old(projects)[id]
      ensures answered == set x | x in old(answered) && x.0 in projects
      ensures var live := set id | id in old(projects) && now - old(projects)[id].windowStart < window;
              if |live| < MAX_PROJECTS then projects.Keys == live
              else projects.Keys <= live && |projects| == |live| - if |live| / 10 == 0 then 1 else |live| / 10
    {
      hide Remembered, Of, Within;
      DropExpired(now);
      ghost var live := set id | id in old(projects) && now - old(projects)[id].windowStart < window;
      forall id ensures id in projects.Keys <==> id in live {}
      assert projects.Keys == live && |projects.Keys| == |projects|;
      if |projects| < MAX_PROJECTS {
        return;
      }
      var drop := |projects| / 10;
      if drop == 0 {
        drop := 1;
      }
      ghost var all, size := drop, |projects|;
      while drop > 0
        invariant Valid() && 0 <= drop <= all && |projects| == size - all + drop
        invariant projects.Keys <= live && projects.Keys <= old(projects).Keys
        invariant forall id :: id in projects ==> projects[id] == old(projects)[id]
        invariant answered == set x | x in old(answered) && x.0 in projects
      {
        assert |projects.Keys| == |projects| && ((forall x: int :: x !in projects.Keys) ==> projects.Keys == {});
        var id: int :| id in projects.Keys;
        Remove(id);
        drop := drop - 1;
      }
    }

    /** Whether one more value may be remembered, after forgetting expired projects if need be. */
    method HasBudget(now: int) returns (ok: bool)
      requires Valid()
      modifies this`projects, this`tracked, this`answered
      ensures Valid() && ok == (tracked < Budget())
      ensures !ok ==> NoneExpired(now)
      ensures forall id :: id in old(projects) && !Over(old(projects)[id], now) ==> id in projects
      ensures projects.Keys <= old(projects).Keys && forall id :: id in projects ==> projects[id] == old(projects)[id]
      ensures answered == set x | x in old(answered) && x.0 in projects
    {
      hide Remembered, Of, Within;
      AnsweredAreKnown(projects, answered);
      if tracked < Budget() {
        return true;
      }
      DropExpired(now);
      ok := tracked < Budget();
    }

    predicate Fresh(id: int, now: int)
      reads this`projects
    {
      id in projects && !Over(projects[id], now)
    }

    method Put(id: int, p: Project, n: nat)
      requires Valid() && limit > 0 && Within(p) && (id in projects || |projects| < MAX_PROJECTS)
      requires n == |Of(id, p)| && tracked - (if id in projects then |Of(id, projects[id])| else 0) + n <= Budget()
      requires forall x :: x in answered && x.0 == id ==> x in Of(id, p)
      modifies this`projects, this`tracked
      ensures Valid() && projects == old(projects)[id := p]
      ensures tracked == old(tracked) - (if id in old(projects) then |Of(id, old(projects)[id])| else 0) + n
    {
      hide Remembered, Of, Within;
      KeepsAnswered(projects, id, p, answered);
      var before := 0;
      if id in projects {
        before := TrackedValues(id, projects[id]);
      }
      tracked := tracked - before + n;
      projects := projects[id := p];
    }

    /** The project's entry, new if it was absent, begun anew if its window is over. */
    method OpenProject(id: int, now: int)
      requires Valid() && limit > 0
      modifies this`projects, this`tracked, this`answered
      ensures Valid() && Fresh(id, now)
      ensures projects[id] == if old(Fresh(id, now)) then old(projects)[id] else Project(now, map[])
      ensures forall o :: o in projects && o != id ==> o in old(projects) && projects[o] == old(projects)[o]
      ensures id in old(projects) || |old(projects)| < MAX_PROJECTS ==> projects.Keys == old(projects).Keys + {id}
      ensures answered == Surviving(old(answered), projects, id, old(Fresh(id, now)))
    {
      assert Within(Project(now, map[]));
      hide Remembered, Of, Within;
      AnsweredAreKnown(projects, answered);
      var empty := Project(now, map[]);
      EmptyProject(id, empty);
      if id !in projects {
        if |projects| >= MAX_PROJECTS {
          Evict(now);
        }
        AnsweredAreKnown(projects, answered);
        Put(id, empty, 0);
      }
      if Over(projects[id], now) {
        Remove(id);
        Put(id, empty, 0);
      }
    }

    /** A new value of the field is remembered and answered as it is. */
    method Remember(id: int, field: string, value: string)
      requires Valid() && limit > 0 && id in projects && tracked < Budget()
      requires field in projects[id].fields || |projects[id].fields| < MAX_FIELDS
      requires |Get(projects[id], field).seen| < limit && value !in Get(projects[id], field).seen
      modifies this`projects, this`tracked, this`answered
      ensures Valid() && projects.Keys == old(projects).Keys
      ensures forall o :: o in projects && o != id ==> projects[o] == old(projects)[o]
      ensures field in projects[id].fields && projects[id].windowStart == old(projects)[id].windowStart
      ensures Of(id, projects[id]) == Of(id, old(projects)[id]) + {(id, field, value)}
      ensures answered == old(answered) + {(id, field, value)}
    {
      hide Remembered, Of, Within;
      var p := projects[id];
      var f := Get(p, field);
      f := f.(seen := f.seen + {value});
      StillWithin(p, field, f);
      var n := TrackedValues(id, p);
      NewValue(id, p, field, f, value);
      OwnAnswers(projects, id, answered);
      Put(id, p.(fields := p.fields[field := f]), n + 1);
      AnsweredToo(projects, id, answered, (id, field, value));
      answered := answered + {(id, field, value)};
    }

    /** A value too many is counted, and a few are kept as samples. */
    method Collapse(id: int, field: string, value: string)
      requires Valid() && limit > 0 && id in projects
      requires field in projects[id].fields || |projects[id].fields| < MAX_FIELDS
      modifies this`projects, this`tracked, this`collapsedTotal
      ensures Valid() && projects.Keys == old(projects).Keys && tracked == old(tracked)
      ensures forall o :: o in projects && o != id ==> projects[o] == old(projects)[o]
      ensures field in projects[id].fields && projects[id].fields[field] == OneMore(Get(old(projects)[id], field), value)
      ensures projects[id].windowStart == old(projects)[id].windowStart
      ensures Of(id, projects[id]) == Of(id, old(projects)[id]) && collapsedTotal == old(collapsedTotal) + 1
    {
      hide Remembered, Of, Within;
      var p := projects[id];
      var f := Get(p, field);
      f := f.(collapsed := f.collapsed + 1, samples := if |f.samples| < MAX_SAMPLES then f.samples + [value] else f.samples);
      StillWithin(p, field, f);
      var n := TrackedValues(id, p);
      SameValues(id, p, field, f);
      OwnAnswers(projects, id, answered);
      Put(id, p.(fields := p.fields[field := f]), n);
      collapsedTotal := collapsedTotal + 1;
    }

    lemma StillWithin(p: Project, field: string, f: Field)
      requires Within(p) && (field in p.fields || |p.fields| < MAX_FIELDS) && limit > 0
      requires |f.seen| <= |Get(p, field).seen| || |f.seen| <= limit
      requires |f.samples| <= |Get(p, field).samples| || |f.samples| <= MAX_SAMPLES
      ensures Within(p.(fields := p.fields[field := f]))
    {
      assert p.fields[field := f].Keys == p.fields.Keys + {field};
    }

    /** The field after a value it had no room for: counted, and the first five kept as samples. */
    function OneMore(f: Field, value: string): Field {
      Field(f.seen, f.collapsed + 1, if |f.samples| < 5 then f.samples + [value] else f.samples)
    }

    /** A value is given back exactly if it is now among the remembered ones, which only
        grow; the marker answers a value the field, the budget or the project had no room for. */
    ghost predicate Judged(id: int, field: string, value: string, r: string, before: Project, after: Project,
                           full: bool, collapsed: int)
    {
      && (r == value || r == OVERFLOW)
      && (r == value <==> (id, field, value) in Of(id, after))
      && Of(id, after) == Of(id, before) + (if r == value then {(id, field, value)} else {})
      && (r == OVERFLOW && collapsed == 1 ==> field in after.fields && after.fields[field] == OneMore(Get(before, field), value))
      && (r == OVERFLOW ==>
            if field in after.fields then (|after.fields[field].seen| >= limit || full) && collapsed == 1
            else |after.fields| >= MAX_FIELDS && collapsed == 0)
    }

    /** Values that are not counted: no limit, no value, or the marker itself. */
    predicate Exempt(value: string) {
      limit <= 0 || value == "" || value == OVERFLOW
    }

    /** The value, or the marker that stands for all values beyond a limit. */
    method Value(id: int, field: string, value: string, now: int) returns (r: string)
      requires Valid()
      modifies this
      ensures Valid() && (limit <= 0 || value in {"", "<cardinality-limit>"} ==> r == value && unchanged(this))
      ensures !(limit <= 0 || value in {"", "<cardinality-limit>"}) ==> Fresh(id, now)
      ensures !Exempt(value) ==>
                Judged(id, field, value, r, if old(Fresh(id, now)) then old(projects)[id] else Project(now, map[]),
                       projects[id], Starved(now), collapsedTotal - old(collapsedTotal))
      ensures forall o :: o in projects && o != id ==> o in old(projects) && projects[o] == old(projects)[o]
      ensures id in old(projects) || |old(projects)| < MAX_PROJECTS ==>
                forall o :: o in old(projects) && now - old(projects)[o].windowStart < window ==> o in projects
      ensures !Exempt(value) ==>
                answered == Surviving(old(answered), projects, id, old(Fresh(id, now))) + (if r == value then {(id, field, value)} else {})
    {
      if Exempt(value) {
        return value;
      }
      hide Judged, Surviving, Remembered, Within;
      r := Limited(id, field, value, now);
    }

    method Limited(id: int, field: string, value: string, now: int) returns (r: string)
      requires Valid() && !Exempt(value)
      modifies this
      ensures Valid() && Fresh(id, now)
      ensures forall o :: o in projects && o != id ==> o in old(projects) && projects[o] == old(projects)[o]
      ensures id in old(projects) || |old(projects)| < MAX_PROJECTS ==>
                forall o :: o in old(projects) && !Over(old(projects)[o], now) ==> o in projects
      ensures Judged(id, field, value, r, if old(Fresh(id, now)) then old(projects)[id] else Project(now, map[]),
                     projects[id], Starved(now), collapsedTotal - old(collapsedTotal))
      ensures answered == Surviving(old(answered), projects, id, old(Fresh(id, now))) + (if r == value then {(id, field, value)} else {})
    {
      hide Remembered, Of, Within, Judged, Surviving;
      OpenProject(id, now);
      ghost var between := projects;
      r := Look(id, field, value, now);
      SurvivingTwice(old(answered), between, projects, id, old(Fresh(id, now)));
    }

    method Look(id: int, field: string, value: string, now: int) returns (r: string)
      requires Valid() && !Exempt(value) && Fresh(id, now)
      modifies this`projects, this`tracked, this`answered, this`collapsedTotal
      ensures Valid() && Fresh(id, now) && projects.Keys <= old(projects).Keys
      ensures forall o :: o in old(projects) && !Over(old(projects)[o], now) ==> o in projects
      ensures forall o :: o in projects && o != id ==> projects[o] == old(projects)[o]
      ensures Judged(id, field, value, r, old(projects)[id], projects[id], Starved(now), collapsedTotal - old(collapsedTotal))
      ensures answered == Surviving(old(answered), projects, id, true) + (if r == value then {(id, field, value)} else {})
    {
      hide Remembered, Of, Within, Surviving;
      var p := projects[id];
      InOf(id, p, field, value);
      AllSurvive(projects, id, answered);
      if field !in p.fields && |p.fields| >= MAX_FIELDS {
        return OVERFLOW;
      }
      if value in Get(p, field).seen {
        AnsweredToo(projects, id, answered, (id, field, value));
        answered := answered + {(id, field, value)};
        return value;
      }
      r := Admit(id, field, value, now);
    }

    lemma TheySurvive(kept: set<Value>, now: map<int, Project>, id: int)
      ensures Surviving(kept, now, id, true) == set x | x in kept && x.0 in now
      ensures forall later: map<int, Project> :: later.Keys == now.Keys ==>
                Surviving(kept, later, id, true) == Surviving(kept, now, id, true)
    {
    }

    lemma JudgedKept(id: int, field: string, value: string, before: Project, after: Project, full: bool, collapsed: int)
      requires value != OVERFLOW && Of(id, after) == Of(id, before) + {(id, field, value)}
      ensures Judged(id, field, value, value, before, after, full, collapsed)
    {
    }

    lemma JudgedRefused(id: int, field: string, value: string, before: Project, after: Project, full: bool)
      requires value != OVERFLOW && (id, field, value) !in Of(id, before) && Of(id, after) == Of(id, before)
      requires field in after.fields && (|after.fields[field].seen| >= limit || full)
      requires after.fields[field] == OneMore(Get(before, field), value)
      ensures Judged(id, field, value, OVERFLOW, before, after, full, 1)
    {
    }

    method KeepOrCollapse(id: int, field: string, value: string, room: bool, now: int) returns (r: string)
      requires Valid() && !Exempt(value) && id in projects && value !in Get(projects[id], field).seen
      requires field in projects[id].fields || |projects[id].fields| < MAX_FIELDS
      requires room <==> |Get(projects[id], field).seen| < limit && tracked < Budget()
      requires !room && |Get(projects[id], field).seen| < limit ==> Starved(now)
      modifies this`projects, this`tracked, this`answered, this`collapsedTotal
      ensures Valid() && projects.Keys == old(projects).Keys && projects[id].windowStart == old(projects)[id].windowStart
      ensures forall o :: o in projects && o != id ==> projects[o] == old(projects)[o]
      ensures Judged(id, field, value, r, old(projects)[id], projects[id], Starved(now), collapsedTotal - old(collapsedTotal))
      ensures answered == old(answered) + if r == value then {(id, field, value)} else {}
    {
      InOf(id, projects[id], field, value);
      hide Remembered, Of, Within, Judged;
      if room {
        Remember(id, field, value);
        r := value;
        JudgedKept(id, field, value, old(projects)[id], projects[id], Starved(now), 0);
      } else {
        Collapse(id, field, value);
        r := OVERFLOW;
        JudgedRefused(id, field, value, old(projects)[id], projects[id], Starved(now));
      }
    }

    predicate NoneExpired(now: int)
      reads this`projects
    {
      forall id :: id in projects ==> now - projects[id].windowStart < window
    }

    /** The budget is used up, and no project's window is over. */
    predicate Starved(now: int)
      reads this`tracked, this`projects
    {
      tracked >= Budget() && NoneExpired(now)
    }

    /** Room in the field, and then in the budget. */
    method HasRoom(id: int, field: string, now: int) returns (room: bool)
      requires Valid() && Fresh(id, now)
      modifies this`projects, this`tracked, this`answered
      ensures Valid() && id in projects && projects.Keys <= old(projects).Keys
      ensures forall o :: o in old(projects) && !Over(old(projects)[o], now) ==> o in projects
      ensures forall o :: o in projects ==> projects[o] == old(projects)[o]
      ensures answered == set x | x in old(answered) && x.0 in projects
      ensures room <==> |Get(projects[id], field).seen| < limit && tracked < Budget()
      ensures !room && |Get(projects[id], field).seen| < limit ==> Starved(now)
    {
      hide Remembered, Of, Within, Get;
      AnsweredAreKnown(projects, answered);
      room := |Get(projects[id], field).seen| < limit;
      if room {
        room := HasBudget(now);
      }
    }

    method Admit(id: int, field: string, value: string, now: int) returns (r: string)
      requires Valid() && !Exempt(value) && Fresh(id, now) && value !in Get(projects[id], field).seen
      requires field in projects[id].fields || |projects[id].fields| < MAX_FIELDS
      modifies this`projects, this`tracked, this`answered, this`collapsedTotal
      ensures Valid() && Fresh(id, now) && projects.Keys <= old(projects).Keys
      ensures forall o :: o in old(projects) && !Over(old(projects)[o], now) ==> o in projects
      ensures forall o :: o in projects && o != id ==> projects[o] == old(projects)[o]
      ensures Judged(id, field, value, r, old(projects)[id], projects[id], Starved(now), collapsedTotal - old(collapsedTotal))
      ensures answered == Surviving(old(answered), projects, id, true) + (if r == value then {(id, field, value)} else {})
    {
      hide Remembered, Of, Within, Judged, Surviving, Get;
      ghost var kept := answered;
      var room := HasRoom(id, field, now);
      TheySurvive(kept, projects, id);
      r := KeepOrCollapse(id, field, value, room, now);
    }
  }

  lemma AllSurvive(projects: map<int, Project>, id: int, answered: set<Value>)
    requires answered <= Remembered(projects)
    ensures Surviving(answered, projects, id, true) == answered
  {
    AnsweredAreKnown(projects, answered);
  }

  lemma SurvivingTwice(answered: set<Value>, between: map<int, Project>, later: map<int, Project>, id: int, kept: bool)
    requires later.Keys <= between.Keys
    ensures Surviving(Surviving(answered, between, id, kept), later, id, true) == Surviving(answered, later, id, kept)
  {
  }

  lemma OwnAnswers(projects: map<int, Project>, id: int, answered: set<Value>)
    requires id in projects && answered <= Remembered(projects)
    ensures forall x :: x in answered && x.0 == id ==> x in Of(id, projects[id])
  {
  }

  lemma AnsweredToo(projects: map<int, Project>, id: int, answered: set<Value>, x: Value)
    requires id in projects && answered <= Remembered(projects) && x in Of(id, projects[id])
    ensures answered + {x} <= Remembered(projects)
  {
    OfProject(projects, id);
  }

  /** What was answered and not forgotten since; a project begun anew forgets its own. */
  ghost function Surviving(answered: set<Value>, projects: map<int, Project>, id: int, kept: bool): set<Value> {
    set x | x in answered && x.0 in projects && (kept || x.0 != id)
  }

  lemma KeepsAnswered(projects: map<int, Project>, id: int, p: Project, answered: set<Value>)
    requires answered <= Remembered(projects) && forall x :: x in answered && x.0 == id ==> x in Of(id, p)
    ensures answered <= Remembered(projects[id := p])
    ensures |Remembered(projects[id := p])| ==
            |Remembered(projects)| - (if id in projects then |Of(id, projects[id])| else 0) + |Of(id, p)|
    ensures |projects[id := p]| == |projects| + if id in projects then 0 else 1
  {
    assert projects[id := p].Keys == projects.Keys + {id};
    Replaced(projects, id, p);
    forall x | x in answered ensures x in Remembered(projects[id := p]) {
      assert x in Remembered(projects);
    }
  }

  lemma AnsweredAreKnown(projects: map<int, Project>, answered: set<Value>)
    requires answered <= Remembered(projects)
    ensures answered == set x | x in answered && x.0 in projects
  {
    forall x | x in answered ensures x.0 in projects {
      assert x in Remembered(projects);
    }
  }

  /** Between two resets a field answers at most limit distinct values besides the marker. */
  lemma FewDistinctAnswers(g: Guard, id: int, field: string)
    requires g.Valid() && g.limit > 0
    ensures |set x | x in g.answered && x.0 == id && x.1 == field| <= g.limit
  {
    var own := set x | x in g.answered && x.0 == id && x.1 == field;
    if id in g.projects && field in g.projects[id].fields {
      var vs := g.projects[id].fields[field].seen;
      var tagged := set v | v in vs :: (id, field, v);
      Tagged(id, field, vs);
      assert own <= tagged;
      Fewer(own, tagged);
    } else {
      assert own == {};
    }
  }

  lemma Fewer(a: set<Value>, b: set<Value>)
    requires a <= b
    ensures |a| <= |b|
  {
    assert b == a + (b - a);
  }
}
