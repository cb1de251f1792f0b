/**
 * The donation service (backend/app.py): goals that collect donations, the people who support
 * them, and the games those people play, kept in three registries keyed by name. Each endpoint
 * either fails with an HTTP error and changes nothing, or performs one mutation.
 *
 * The store keeps a ledger invariant: every goal lists exactly the registered people who
 * support it, once each, and its `donations` is the sum of theirs.
 */
module DonationApi {
  import opened Wrappers

  // ---------------------------------------------------------------- lists and sums

  /** The position of the first `x` in `s`: the element `list.remove` takes out. */
  function FirstIndex<T(==)>(s: seq<T>, x: T): (i: nat)
    requires x in s
    ensures i < |s| && s[i] == x
    ensures forall j :: 0 <= j < i ==> s[j] != x
  {
    if s[0] == x then 0 else 1 + FirstIndex(s[1..], x)
  }

  /** `list.remove(x)` on a list that holds `x`. */
  function RemoveFirst<T(==)>(s: seq<T>, x: T): seq<T>
    requires x in s
  {
    var i := FirstIndex(s, x);
    s[..i] + s[i + 1..]
  }

  /** Removing takes out one occurrence and keeps the order of the rest. */
  lemma RemoveFirstTakesOne<T>(s: seq<T>, x: T)
    requires x in s
    ensures |RemoveFirst(s, x)| == |s| - 1
    ensures multiset(RemoveFirst(s, x)) == multiset(s) - multiset{x}
    ensures forall j :: 0 <= j < FirstIndex(s, x) ==> RemoveFirst(s, x)[j] == s[j]
    ensures forall j :: FirstIndex(s, x) <= j < |s| - 1 ==> RemoveFirst(s, x)[j] == s[j + 1]
  {
    var i := FirstIndex(s, x);
    var front, back := s[..i], s[i + 1..];
    var r := RemoveFirst(s, x);
    assert r == front + back;
    assert s == front + [x] + back;
    calc {
      multiset(s);
      multiset(front + [x] + back);
      multiset(front) + multiset{x} + multiset(back);
      multiset(r) + multiset{x};
    }
    forall j | i <= j < |s| - 1
      ensures r[j] == s[j + 1]
    {
      assert r[j] == back[j - i];
    }
  }

  /**
   * Joining appends without a duplicate check, so a leave undoes a join only when the player
   * was not already in the list; otherwise the earlier entry goes and the player stays listed.
   */
  lemma LeaveUndoesJoin<T>(s: seq<T>, x: T)
    ensures x !in s ==> RemoveFirst(s + [x], x) == s
    ensures x in s ==> x in RemoveFirst(s + [x], x) && |RemoveFirst(s + [x], x)| == |s|
  {
    if x !in s {
      assert FirstIndex(s + [x], x) == |s|;
      assert (s + [x])[..|s|] == s;
    } else {
      RemoveFirstTakesOne(s + [x], x);
      assert FirstIndex(s + [x], x) < |s|;
      assert RemoveFirst(s + [x], x)[|s| - 1] == x;
    }
  }

  function Sum(s: seq<int>): int
    decreases |s|
  {
    if s == [] then 0 else Sum(s[..|s| - 1]) + s[|s| - 1]
  }

  lemma SumSnoc(s: seq<int>, v: int)
    ensures Sum(s + [v]) == Sum(s) + v
  {
    assert (s + [v])[..|s|] == s;
  }

  /** Adding `a` to one entry adds `a` to the sum. */
  lemma {:induction false} SumUpdate(s: seq<int>, i: nat, a: int)
    requires i < |s|
    ensures Sum(s[i := s[i] + a]) == Sum(s) + a
    decreases |s|
  {
    var n := |s|;
    if i < n - 1 {
      SumUpdate(s[..n - 1], i, a);
      assert s[i := s[i] + a][..n - 1] == s[..n - 1][i := s[i] + a];
    } else {
      assert s[i := s[i] + a][..n - 1] == s[..n - 1];
    }
  }

  /** `end_game`'s streak rule (lines 60-65): a win extends a positive streak, otherwise starts one. */
  function NextStreak(w: int): (r: int)
    ensures r >= 1
    ensures r == (if w < 0 then 0 else w) + 1
  {
    if w > 0 then w + 1 else 1
  }

  function Streak(start: int, wins: nat): int
    decreases wins
  {
    if wins == 0 then start else NextStreak(Streak(start, wins - 1))
  }

  /** From a fresh person's 0, `k` wins give a streak of `k`; from any value, at least `k`. */
  lemma {:induction false} StreakCountsWins(start: int, k: nat)
    ensures Streak(0, k) == k
    ensures k > 0 ==> Streak(start, k) >= k
    decreases k
  {
    if k > 0 {
      StreakCountsWins(start, k - 1);
    }
  }

  // ---------------------------------------------------------------- the three entities

  class Goal {
    const name: string
    const item: string
    const amount: int
    var donations: int
    var people: seq<Person>

    constructor (name0: string, item0: string, amount0: int)
      ensures name == name0 && item == item0 && amount == amount0
      ensures donations == 0 && people == []
    {
      name := name0;
      item := item0;
      amount := amount0;
      donations := 0;
      people := [];
    }

    method AddPerson(p: Person)
      modifies this
      ensures people == old(people) + [p]
      ensures donations == old(donations)
    {
      people := people + [p];
    }

    /** `remove_person`: `false` where `list.remove` raises because `p` is absent. */
    method RemovePerson(p: Person) returns (ok: bool)
      modifies this
      ensures ok <==> p in old(people)
      ensures ok ==> people == RemoveFirst(old(people), p)
      ensures !ok ==> people == old(people)
      ensures donations == old(donations)
    {
      if p in people {
        people := RemoveFirst(people, p);
        return true;
      }
      return false;
    }
  }

  class Person {
    const name: string
    const goal: Goal
    var winstreak: int
    var donations: int

    constructor (name0: string, goal0: Goal)
      ensures name == name0 && goal == goal0
      ensures winstreak == 0 && donations == 0
    {
      name := name0;
      goal := goal0;
      winstreak := 0;
      donations := 0;
    }

    /** `donate` (lines 33-35): the amount is credited to the person and to their goal. */
    method Donate(amount: int)
      modifies this, goal
      ensures donations == old(donations) + amount
      ensures goal.donations == old(goal.donations) + amount
      ensures winstreak == old(winstreak) && goal.people == old(goal.people)
    {
      donations := donations + amount;
      goal.donations := goal.donations + amount;
    }

    method JoinGame(game: Game)
      modifies game
      ensures game.players == old(game.players) + [this]
      ensures game.winner == old(game.winner)
    {
      game.JoinGame(this);
    }

    method LeaveGame(game: Game) returns (ok: bool)
      modifies game
      ensures ok <==> this in old(game.players)
      ensures ok ==> game.players == RemoveFirst(old(game.players), this)
      ensures !ok ==> game.players == old(game.players)
      ensures game.winner == old(game.winner)
    {
      ok := game.LeaveGame(this);
    }
  }

  class Game {
    const name: string
    const goal: Goal
    var players: seq<Person>
    var winner: Option<Person>

    constructor (name0: string, goal0: Goal)
      ensures name == name0 && goal == goal0
      ensures players == [] && winner == None
    {
      name := name0;
      goal := goal0;
      players := [];
      winner := None;
    }

    method JoinGame(p: Person)
      modifies this
      ensures players == old(players) + [p]
      ensures winner == old(winner)
    {
      players := players + [p];
    }

    /** `leave_game`: `false` where `list.remove` raises because `p` is absent. */
    method LeaveGame(p: Person) returns (ok: bool)
      modifies this
      ensures ok <==> p in old(players)
      ensures ok ==> players == RemoveFirst(old(players), p)
      ensures !ok ==> players == old(players)
      ensures winner == old(winner)
    {
      if p in players {
        players := RemoveFirst(players, p);
        return true;
      }
      return false;
    }

    /** `end_game` (lines 60-65): records the winner and advances their streak. */
    method EndGame(w: Person)
      modifies this, w
      ensures winner == Some(w)
      ensures w.winstreak == NextStreak(old(w.winstreak))
      ensures w.donations == old(w.donations) && players == old(players)
    {
      winner := Some(w);
      if w.winstreak > 0 {
        w.winstreak := w.winstreak + 1;
      } else {
        w.winstreak := 1;
      }
    }
  }

  // ---------------------------------------------------------------- the ledger

  ghost function DonationsOf(ps: seq<Person>): (r: seq<int>)
    reads ps
    ensures |r| == |ps|
    ensures forall i :: 0 <= i < |ps| ==> r[i] == ps[i].donations
  {
    seq(|ps|, i requires 0 <= i < |ps| reads ps => ps[i].donations)
  }

  ghost predicate NoDuplicates(ps: seq<Person>) {
    forall i, j :: 0 <= i < j < |ps| ==> ps[i] != ps[j]
  }

  /** `people` maps `p.name` to `p`. */
  ghost predicate Registered(p: Person, people: map<string, Person>) {
    p.name in people && people[p.name] == p
  }

  /**
   * A goal's books against the people registry: its list holds exactly the registered
   * supporters, once each, and its total is the sum of their donations.
   */
  ghost predicate Books(g: Goal, people: map<string, Person>)
    reads g, g.people, people.Values
  {
    && (forall p :: p in g.people ==> Registered(p, people) && p.goal == g)
    && NoDuplicates(g.people)
    && (forall n :: n in people && people[n].goal == g ==> people[n] in g.people)
    && g.donations == Sum(DonationsOf(g.people))
  }

  twostate lemma DonationsKept(ps: seq<Person>)
    requires forall i :: 0 <= i < |ps| ==> ps[i].donations == old(ps[i].donations)
    ensures DonationsOf(ps) == old(DonationsOf(ps))
  {
  }

  /** Registering a supporter of another goal leaves a goal's books as they were. */
  lemma BooksAddOther(g: Goal, people: map<string, Person>, p: Person)
    requires Books(g, people) && p.name !in people && p.goal != g
    ensures Books(g, people[p.name := p])
  {
    var people' := people[p.name := p];
    forall q | q in g.people
      ensures Registered(q, people')
    {
      assert Registered(q, people);
    }
    forall n | n in people' && people'[n].goal == g
      ensures people'[n] in g.people
    {
      assert n in people;
    }
  }

  /** One goal's books against one registry of people. */
  datatype Ledger = Ledger(goal: Goal, people: map<string, Person>)

  /** Books that nothing they read has touched still balance. */
  twostate lemma BooksUnchanged(l: Ledger)
    requires old(Books(l.goal, l.people))
    requires unchanged(l.goal)
    requires forall n :: n in l.people ==> unchanged(l.people[n])
    ensures Books(l.goal, l.people)
  {
    var ps := l.goal.people;
    forall i | 0 <= i < |ps|
      ensures ps[i].donations == old(ps[i].donations)
    {
      assert ps[i] in ps && Registered(ps[i], l.people);
      assert unchanged(l.people[ps[i].name]);
    }
    DonationsKept(ps);
  }

  /** A newcomer registered as a supporter of one goal. */
  datatype Enrolment = Enrolment(goal: Goal, people: map<string, Person>, newcomer: Person)

  /** A goal that gains a new supporter with no donations still balances against the grown registry. */
  twostate lemma Enrolled(e: Enrolment)
    requires old(Books(e.goal, e.people))
    requires e.newcomer.goal == e.goal && e.newcomer.donations == 0
    requires e.newcomer.name !in e.people
    requires e.goal.people == old(e.goal.people) + [e.newcomer]
    requires e.goal.donations == old(e.goal.donations)
    requires forall n :: n in e.people ==> unchanged(e.people[n])
    ensures Books(e.goal, e.people[e.newcomer.name := e.newcomer])
  {
    var g, p := e.goal, e.newcomer;
    var people' := e.people[p.name := p];
    var before := old(g.people);
    assert forall q :: q in g.people ==> Registered(q, people') && q.goal == g by {
      forall q | q in g.people
        ensures Registered(q, people') && q.goal == g
      {
        if q != p {
          assert q in before && Registered(q, e.people);
        }
      }
    }
    assert NoDuplicates(g.people) by {
      assert p !in before by {
        assert forall q :: q in before ==> q.name in e.people;
      }
      forall i, j | 0 <= i < j < |g.people|
        ensures g.people[i] != g.people[j]
      {
        assert g.people[i] == before[i];
        if j < |before| {
          assert g.people[j] == before[j];
        }
      }
    }
    assert forall n :: n in people' && people'[n].goal == g ==> people'[n] in g.people by {
      forall n | n in people' && people'[n].goal == g
        ensures people'[n] in g.people
      {
        if n != p.name {
          assert people'[n] == e.people[n];
          assert e.people[n] in before;
        }
      }
    }
    assert g.donations == Sum(DonationsOf(g.people)) by {
      forall i | 0 <= i < |before|
        ensures before[i].donations == old(before[i].donations)
      {
        assert before[i] in before && Registered(before[i], e.people);
        assert unchanged(e.people[before[i].name]);
      }
      assert g.people[..|before|] == before;
      DonationsKept(before);
      SumSnoc(old(DonationsOf(before)), 0);
      assert DonationsOf(g.people) == old(DonationsOf(before)) + [0];
    }
  }

  /** `goals` maps `g.name` to `g`. */
  ghost predicate GoalOf(g: Goal, goals: map<string, Goal>) {
    g.name in goals && goals[g.name] == g
  }

  /**
   * A credit of `amount` to `donor` seen from one goal's books: the donor's goal receives the
   * same amount and nobody else's donations move. A win is a credit of 0.
   */
  datatype Credit = Credit(goal: Goal, people: map<string, Person>, donor: Person, amount: int)

  /** The books of every goal still balance after a credit. */
  twostate lemma Credited(c: Credit)
    requires old(Books(c.goal, c.people))
    requires Registered(c.donor, c.people)
    requires c.goal.people == old(c.goal.people)
    requires c.goal.donations == old(c.goal.donations) + (if c.donor.goal == c.goal then c.amount else 0)
    requires c.donor.donations == old(c.donor.donations) + c.amount
    requires forall n :: n in c.people && c.people[n] != c.donor ==> c.people[n].donations == old(c.people[n].donations)
    ensures Books(c.goal, c.people)
  {
    var g, q := c.goal, c.donor;
    var before := old(DonationsOf(g.people));
    if q.goal == g {
      assert q in g.people;
      var i := FirstIndex(g.people, q);
      forall j | 0 <= j < |g.people|
        ensures DonationsOf(g.people)[j] == before[i := before[i] + c.amount][j]
      {
        if j != i {
          assert old(Registered(g.people[j], c.people));
          assert g.people[j] != q by {
            assert old(NoDuplicates(g.people));
          }
        }
      }
      assert DonationsOf(g.people) == before[i := before[i] + c.amount];
      SumUpdate(before, i, c.amount);
    } else {
      forall j | 0 <= j < |g.people|
        ensures DonationsOf(g.people)[j] == before[j]
      {
        assert old(Registered(g.people[j], c.people)) && old(g.people[j].goal == g);
      }
      assert DonationsOf(g.people) == before;
    }
  }

  /** Responses of the endpoints: successes, and the `HTTPException`s with their details. */
  datatype Outcome =
    | Created | Done | Found(goal: Goal)
    | GoalExists | PersonExists | GameExists
    | GoalNotFound | PersonNotFound | GameNotFound | WinnerNotFound

  function StatusCode(o: Outcome): (code: nat)
    ensures code == 400 <==> o.GoalExists? || o.PersonExists? || o.GameExists?
    ensures code == 404 <==> o.GoalNotFound? || o.PersonNotFound? || o.GameNotFound? || o.WinnerNotFound?
    ensures code == 201 <==> o.Created?
    ensures code == 200 <==> o.Done? || o.Found?
  {
    match o
    case Created => 201
    case Done => 200
    case Found(_) => 200
    case GoalExists => 400
    case PersonExists => 400
    case GameExists => 400
    case GoalNotFound => 404
    case PersonNotFound => 404
    case GameNotFound => 404
    case WinnerNotFound => 404
  }

  /** The in-memory storage (lines 86-88) and the endpoints over it. */
  class Store {
    var goals: map<string, Goal>
    var people: map<string, Person>
    var games: map<string, Game>

    ghost predicate Valid()
      reads this, goals.Values, people.Values
    {
      && (forall n :: n in goals ==> goals[n].name == n)
      && (forall n :: n in people ==> people[n].name == n && GoalOf(people[n].goal, goals))
      && (forall n :: n in games ==> games[n].name == n && GoalOf(games[n].goal, goals))
      && (forall n, p :: n in goals && p in goals[n].people ==> p in people.Values)
      && (forall n :: n in goals ==> Books(goals[n], people))
    }

    constructor ()
      ensures goals == map[] && people == map[] && games == map[]
      ensures Valid()
    {
      goals := map[];
      people := map[];
      games := map[];
    }

    /** `create_goal` (lines 94-100). */
    method CreateGoal(name: string, item: string, amount: int) returns (out: Outcome)
      requires Valid()
      modifies this
      ensures Valid()
      ensures people == old(people) && games == old(games)
      ensures name in old(goals) ==> out == GoalExists && goals == old(goals)
      ensures name !in old(goals) ==>
        && out == Created
        && goals.Keys == old(goals).Keys + {name}
        && (forall n :: n in old(goals) ==> goals[n] == old(goals)[n])
        && fresh(goals[name])
        && goals[name].item == item && goals[name].amount == amount
        && goals[name].donations == 0 && goals[name].people == []
    {
      if name in goals {
        return GoalExists;
      }
      ghost var before := goals;
      var g := new Goal(name, item, amount);
      goals := goals[name := g];
      assert Books(g, people) by {
        forall n | n in people
          ensures people[n].goal != g
        {
          assert GoalOf(people[n].goal, before);
        }
      }
      forall n | n in people
        ensures GoalOf(people[n].goal, goals)
      {
        assert GoalOf(people[n].goal, before);
      }
      forall n | n in games
        ensures GoalOf(games[n].goal, goals)
      {
        assert GoalOf(games[n].goal, before);
      }
      forall n | n in before
        ensures Books(goals[n], people)
      {
        assert goals[n] == before[n] && Books(before[n], people);
      }
      return Created;
    }

    /** `get_goal` (lines 106-110). */
    method GetGoal(name: string) returns (out: Outcome)
      ensures name in goals <==> out.Found?
      ensures name in goals ==> out == Found(goals[name])
      ensures name !in goals ==> out == GoalNotFound
    {
      if name !in goals {
        return GoalNotFound;
      }
      return Found(goals[name]);
    }

    /** `create_person` (lines 112-122): a duplicate name is reported before a missing goal. */
    method CreatePerson(name: string, goalName: string) returns (out: Outcome)
      requires Valid()
      modifies this, goals.Values
      ensures Valid()
      ensures goals == old(goals) && games == old(games)
      ensures name in old(people) ==> out == PersonExists && people == old(people)
      ensures name !in old(people) && goalName !in goals ==> out == GoalNotFound && people == old(people)
      ensures out.PersonExists? || out.GoalNotFound? ==> forall g :: g in goals.Values ==> unchanged(g)
      ensures name !in old(people) && goalName in goals ==>
        && out == Created
        && people.Keys == old(people).Keys + {name}
        && (forall n :: n in old(people) ==> people[n] == old(people)[n])
        && fresh(people[name])
        && people[name].goal == goals[goalName]
        && people[name].donations == 0 && people[name].winstreak == 0
        && goals[goalName].people == old(goals[goalName].people) + [people[name]]
        && goals[goalName].donations == old(goals[goalName].donations)
        && forall g :: g in goals.Values && g != goals[goalName] ==> unchanged(g)
    {
      if name in people {
        return PersonExists;
      }
      if goalName !in goals {
        return GoalNotFound;
      }
      RegisterPerson(name, goalName);
      return Created;
    }

    /** The success path of `create_person` (lines 119-121). */
    method RegisterPerson(name: string, goalName: string)
      requires Valid() && name !in people && goalName in goals
      modifies this, goals[goalName]
      ensures goals == old(goals) && games == old(games)
      ensures people.Keys == old(people).Keys + {name}
      ensures forall n :: n in old(people) ==> people[n] == old(people)[n]
      ensures fresh(people[name])
      ensures people[name].goal == goals[goalName]
      ensures people[name].donations == 0 && people[name].winstreak == 0
      ensures goals[goalName].people == old(goals[goalName].people) + [people[name]]
      ensures goals[goalName].donations == old(goals[goalName].donations)
      ensures Valid()
    {
      var h := goals[goalName];
      ghost var registry := people;
      var p := new Person(name, h);
      label Allocated:
      people := people[name := p];
      h.AddPerson(p);
      Enrolled@Allocated(Enrolment(h, registry, p));
      forall k | k in goals
        ensures Books(goals[k], people)
      {
        if k != goalName {
          assert goals[k] != h;
          BooksUnchanged(Ledger(goals[k], registry));
          BooksAddOther(goals[k], registry, p);
        }
      }
    }

    /** `create_game` (lines 128-137): a duplicate name is reported before a missing goal. */
    method CreateGame(name: string, goalName: string) returns (out: Outcome)
      requires Valid()
      modifies this
      ensures Valid()
      ensures goals == old(goals) && people == old(people)
      ensures name in old(games) ==> out == GameExists && games == old(games)
      ensures name !in old(games) && goalName !in goals ==> out == GoalNotFound && games == old(games)
      ensures name !in old(games) && goalName in goals ==>
        && out == Created
        && games.Keys == old(games).Keys + {name}
        && (forall n :: n in old(games) ==> games[n] == old(games)[n])
        && fresh(games[name])
        && games[name].goal == goals[goalName]
        && games[name].players == [] && games[name].winner == None
    {
      if name in games {
        return GameExists;
      }
      if goalName !in goals {
        return GoalNotFound;
      }
      ghost var before := games;
      var game := new Game(name, goals[goalName]);
      games := games[name := game];
      forall n | n in games
        ensures games[n].name == n && GoalOf(games[n].goal, goals)
      {
        if n != name {
          assert games[n] == before[n];
        }
      }
      return Created;
    }

    /** The join endpoint (lines 139-147): the person is appended, even when already playing. */
    method JoinGame(gameName: string, personName: string) returns (out: Outcome)
      requires Valid()
      modifies games.Values
      ensures Valid()
      ensures gameName !in games ==> out == GameNotFound
      ensures gameName in games && personName !in people ==> out == PersonNotFound
      ensures out != Done ==> forall g :: g in games.Values ==> unchanged(g)
      ensures gameName in games && personName in people ==>
        && out == Done
        && games[gameName].players == old(games[gameName].players) + [people[personName]]
        && games[gameName].winner == old(games[gameName].winner)
        && forall g :: g in games.Values && g != games[gameName] ==> unchanged(g)
    {
      if gameName !in games {
        return GameNotFound;
      }
      if personName !in people {
        return PersonNotFound;
      }
      games[gameName].JoinGame(people[personName]);
      return Done;
    }

    /** `make_donation` (lines 149-156): the person's goal receives the same amount. */
    method MakeDonation(personName: string, amount: int) returns (out: Outcome)
      requires Valid()
      modifies people.Values, goals.Values
      ensures Valid()
      ensures personName !in people ==> out == PersonNotFound
      ensures out != Done ==> forall o: object :: o in people.Values + goals.Values ==> unchanged(o)
      ensures personName in people ==>
        var q := people[personName];
        && out == Done
        && q.donations == old(q.donations) + amount
        && q.goal.donations == old(q.goal.donations) + amount
        && q.winstreak == old(q.winstreak)
        && forall o: object :: o in people.Values + goals.Values && o != q && o != q.goal ==> unchanged(o)
    {
      if personName !in people {
        return PersonNotFound;
      }
      var q := people[personName];
      q.Donate(amount);
      forall k | k in goals
        ensures Books(goals[k], people)
      {
        Credited(Credit(goals[k], people, q, amount));
      }
      return Done;
    }

    /** The end endpoint (lines 158-166): an unknown game is reported before an unknown winner. */
    method EndGame(gameName: string, winnerName: string) returns (out: Outcome)
      requires Valid()
      modifies games.Values, people.Values
      ensures Valid()
      ensures gameName !in games ==> out == GameNotFound
      ensures gameName in games && winnerName !in people ==> out == WinnerNotFound
      ensures out != Done ==> forall o: object :: o in games.Values + people.Values ==> unchanged(o)
      ensures gameName in games && winnerName in people ==>
        var w := people[winnerName];
        && out == Done
        && games[gameName].winner == Some(w)
        && games[gameName].players == old(games[gameName].players)
        && w.winstreak == NextStreak(old(w.winstreak))
        && w.donations == old(w.donations)
        && forall o: object :: o in games.Values + people.Values && o != w && o != games[gameName] ==> unchanged(o)
    {
      if gameName !in games {
        return GameNotFound;
      }
      if winnerName !in people {
        return WinnerNotFound;
      }
      var w := people[winnerName];
      games[gameName].EndGame(w);
      forall k | k in goals
        ensures Books(goals[k], people)
      {
        Credited(Credit(goals[k], people, w, 0));
      }
      return Done;
    }
  }
}
