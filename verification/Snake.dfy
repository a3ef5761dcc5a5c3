/** The snake game of src/apps/catnake.c: its steps, without drawing and delays. */
module Snake {
  import opened Words

  const WIDTH: nat := 40
  const HEIGHT: nat := 18
  const MAX: nat := WIDTH * HEIGHT

  datatype Pt = Pt(x: int, y: int)

  const TRIES: nat := 1000

  const NOWHERE := Pt(-1, -1)

  datatype Key = NoKey | Up | Down | Left | Right | Other

  /** A game between two steps; `rng` is the state of the random number generator. */
  datatype State = State(body: seq<Pt>, dir: Pt, food: Pt, score: nat, high: nat, dead: bool, rng: nat)

  predicate InGrid(p: Pt) {
    0 <= p.x < WIDTH && 0 <= p.y < HEIGHT
  }

  function Add(p: Pt, d: Pt): Pt {
    Pt(p.x + d.x, p.y + d.y)
  }

  predicate Unit(d: Pt) {
    (d.x == 0 && (d.y == 1 || d.y == -1)) || (d.y == 0 && (d.x == 1 || d.x == -1))
  }

  predicate InGridAll(body: seq<Pt>) {
    forall i :: 0 <= i < |body| ==> InGrid(body[i])
  }

  predicate Distinct(body: seq<Pt>) {
    forall i, j :: 0 <= i < j < |body| ==> body[i] != body[j]
  }

  /** Every segment touches the next one. */
  predicate Connected(body: seq<Pt>) {
    forall i :: 0 < i < |body| ==> Unit(Pt(body[i - 1].x - body[i].x, body[i - 1].y - body[i].y))
  }

  predicate SnakeBody(body: seq<Pt>) {
    |body| >= 4 && InGridAll(body) && Distinct(body) && Connected(body)
  }

  /** What holds between any two steps of any game. */
  predicate Good(s: State) {
    && SnakeBody(s.body) && Unit(s.dir)
    && |s.body| == 4 + s.score && s.score <= s.high
    && (s.food == NOWHERE || (InGrid(s.food) && s.food !in s.body))
    && (!s.dead ==> s.body[0] == Add(s.body[1], s.dir))
  }

  /** rng_next */
  function Rng(r: nat): (n: nat)
    ensures n < WORD
  {
    (r * 1664525 + 1013904223) % WORD
  }

  /** catnake_place_food with `tries` draws left: the place and the generator's new state. */
  function Place(body: seq<Pt>, rng: nat, tries: nat): (r: (Pt, nat))
    ensures r.0 == NOWHERE || (InGrid(r.0) && r.0 !in body)
    decreases tries
  {
    if tries == 0 then (NOWHERE, rng)
    else
      var a := Rng(rng);
      var b := Rng(a);
      var f := Pt(a % WIDTH, b % HEIGHT);
      if f !in body then (f, b) else Place(body, b, tries - 1)
  }

  function Start(seed: nat, high: nat): State {
    var body := [Pt(10, 9), Pt(9, 9), Pt(8, 9), Pt(7, 9)];
    var (food, rng) := Place(body, seed, TRIES);
    State(body, Pt(1, 0), food, 0, high, false, rng)
  }

  /** The direction a key leads to: only across the direction of travel. */
  function Turned(dir: Pt, key: Key): Pt {
    match key
    case Up => if dir.y == 0 then Pt(0, -1) else dir
    case Down => if dir.y == 0 then Pt(0, 1) else dir
    case Left => if dir.x == 0 then Pt(-1, 0) else dir
    case Right => if dir.x == 0 then Pt(1, 0) else dir
    case _ => dir
  }

  function Max(a: nat, b: nat): nat {
    if a > b then a else b
  }

  /** One turn of the inner loop. */
  function Next(s: State, key: Key): State
    requires s.body != []
  {
    if s.dead then s
    else
      var dir := Turned(s.dir, key);
      var head := Add(s.body[0], dir);
      if !InGrid(head) || head in s.body then s.(dir := dir, dead := true) else Moved(s.(dir := dir), head)
  }

  /** The step of a snake whose way is free. */
  function Moved(s: State, head: Pt): State
    requires s.body != []
  {
    var moved := [head] + s.body[..|s.body| - 1];
    if head != s.food then s.(body := moved)
    else
      var grown := if |s.body| < MAX then moved + [s.body[|s.body| - 1]] else moved;
      var (food, rng) := Place(grown, s.rng, TRIES);
      State(grown, s.dir, food, s.score + 1, Max(s.high, s.score + 1), s.dead, rng)
  }

  function Run(s: State, keys: seq<Key>): State
    requires Good(s)
    decreases |keys|
  {
    if keys == [] then s
    else
      NextKeepsGood(s, keys[0]);
      Run(Next(s, keys[0]), keys[1..])
  }

  // ---------------------------------------------------------------- invariants

  lemma StartIsGood(seed: nat, high: nat)
    ensures Good(Start(seed, high))
  {
    hide Place;
  }

  /** The head never turns into the neck: whatever key is hit, the next cell is not the second segment. */
  lemma NeverIntoNeck(s: State, key: Key)
    requires Good(s) && !s.dead
    ensures Unit(Turned(s.dir, key)) && Add(s.body[0], Turned(s.dir, key)) != s.body[1]
  {
  }

  lemma {:induction false} SetOfDistinct<T>(s: seq<T>)
    requires forall i, j :: 0 <= i < j < |s| ==> s[i] != s[j]
    ensures |set x | x in s| == |s|
    decreases |s|
  {
    if s != [] {
      var rest := s[1..];
      SetOfDistinct(rest);
      assert (set x | x in s) == {s[0]} + set x | x in rest;
      assert s[0] !in rest;
    }
  }

  function Upto(n: nat): (r: set<nat>)
    ensures |r| == n && forall x: nat :: x in r <==> x < n
  {
    if n == 0 then {} else Upto(n - 1) + {n - 1}
  }

  lemma Smaller(a: set<nat>, b: set<nat>)
    requires a <= b
    ensures |a| <= |b|
  {
    assert b == a + (b - a);
  }

  /** Cells without repetition fit the grid. */
  lemma CellsFit(body: seq<Pt>)
    requires InGridAll(body) && Distinct(body)
    ensures |body| <= MAX
  {
    var cells: seq<nat> := seq(|body|, i requires 0 <= i < |body| => Cell(body[i]));
    forall i, j | 0 <= i < j < |body| ensures cells[i] != cells[j] {
      CellOnce(body[i], body[j]);
    }
    SetOfDistinct(cells);
    Smaller((set x | x in cells), Upto(MAX));
  }

  function Cell(p: Pt): (c: nat)
    requires InGrid(p)
    ensures c < MAX
  {
    p.y * WIDTH + p.x
  }

  lemma CellOnce(p: Pt, q: Pt)
    requires InGrid(p) && InGrid(q) && p != q
    ensures Cell(p) != Cell(q)
  {
  }

  /** The guard on the length never blocks growth: food lies on a free cell, so there is room for one more segment. */
  lemma GrowthNeverBlocked(s: State, head: Pt)
    requires Good(s) && head == s.food && InGrid(head)
    ensures |s.body| < MAX
  {
    CellsFit([head] + s.body);
  }

  /** The body after a move, with or without its old tail. */
  lemma MovedIsSnake(s: State, dir: Pt, n: nat)
    requires Good(s) && Unit(dir) && |s.body| - 1 <= n <= |s.body|
    requires InGrid(Add(s.body[0], dir)) && Add(s.body[0], dir) !in s.body
    ensures SnakeBody([Add(s.body[0], dir)] + s.body[..n])
  {
    var head := Add(s.body[0], dir);
    var moved := [head] + s.body[..n];
    forall i | 0 < i < |moved|
      ensures Unit(Pt(moved[i - 1].x - moved[i].x, moved[i - 1].y - moved[i].y))
    {
      if i > 1 {
        assert moved[i - 1] == s.body[i - 2] && moved[i] == s.body[i - 1];
      }
    }
  }

  lemma NextKeepsGood(s: State, key: Key)
    requires Good(s)
    ensures Good(Next(s, key))
    ensures s.score <= Next(s, key).score <= s.score + 1
  {
    hide SnakeBody, Place, Unit;
    if !s.dead {
      var dir := Turned(s.dir, key);
      var head := Add(s.body[0], dir);
      NeverIntoNeck(s, key);
      LongEnough(s);
      if InGrid(head) && head !in s.body {
        MovedIsSnake(s, dir, |s.body| - 1);
        MovedIsSnake(s, dir, |s.body|);
        assert s.body[..|s.body|] == s.body[..|s.body| - 1] + [s.body[|s.body| - 1]];
        if head == s.food {
          GrowthNeverBlocked(s, head);
          assert [head] + s.body[..|s.body|] == [head] + s.body[..|s.body| - 1] + [s.body[|s.body| - 1]];
        }
      }
    }
  }

  lemma NextOfDead(s: State, key: Key)
    requires s.body != [] && s.dead
    ensures Next(s, key) == s
  {
  }

  lemma LongEnough(s: State)
    requires Good(s)
    ensures |s.body| >= 4
  {
  }

  /** In every run from every start the invariant holds, and the snake is four segments longer than the score. */
  lemma {:induction false} EveryRunIsGood(s: State, keys: seq<Key>)
    requires Good(s)
    ensures Good(Run(s, keys)) && s.score <= Run(s, keys).score <= s.score + |keys|
    ensures |Run(s, keys).body| == 4 + Run(s, keys).score <= MAX
    decreases |keys|
  {
    if keys == [] {
      CellsFit(s.body);
    } else {
      NextKeepsGood(s, keys[0]);
      EveryRunIsGood(Next(s, keys[0]), keys[1..]);
    }
  }

  /** Each step moves the head by one cell and keeps the order of the other segments. */
  lemma StepMovesByOne(s: State, key: Key)
    requires Good(s) && !Next(s, key).dead
    ensures var t := Next(s, key);
            && t.body[0] == Add(s.body[0], t.dir) && |s.body| <= |t.body| <= |s.body| + 1
            && t.body[1..] == s.body[..|t.body| - 1]
            && (|t.body| == |s.body| + 1 <==> t.body[0] == s.food)
  {
    hide SnakeBody, Place, Unit;
    LongEnough(s);
    var dir := Turned(s.dir, key);
    var head := Add(s.body[0], dir);
    if head == s.food {
      GrowthNeverBlocked(s, head);
      assert [head] + s.body[..|s.body| - 1] + [s.body[|s.body| - 1]] == [head] + s.body;
    }
  }

  /** Where a key leads a snake with head `h` and second segment `n`: up and down are across a level snake, left and right
      across an upright one; anything else keeps the way it is going. */
  function Ahead(h: Pt, n: Pt, key: Key): Pt {
    if h.y == n.y && key == Up then Pt(h.x, h.y - 1)
    else if h.y == n.y && key == Down then Pt(h.x, h.y + 1)
    else if h.x == n.x && key == Left then Pt(h.x - 1, h.y)
    else if h.x == n.x && key == Right then Pt(h.x + 1, h.y)
    else Pt(2 * h.x - n.x, 2 * h.y - n.y)
  }

  /** The next cell, from the cells alone: the game ends exactly if it is outside the 40 by 18 grid or on the snake, and
      otherwise the head moves there. */
  lemma HeadMoves(s: State, key: Key)
    requires Good(s) && !s.dead
    ensures var to := Ahead(s.body[0], s.body[1], key);
            && (Next(s, key).dead <==> !(0 <= to.x < 40 && 0 <= to.y < 18) || to in s.body)
            && (!Next(s, key).dead ==> Next(s, key).body[0] == to)
            && (Next(s, key).dead ==> Next(s, key).body == s.body && Next(s, key).score == s.score)
            && (!Next(s, key).dead && to == s.food ==> Next(s, key).score == s.score + 1)
            && Next(s, key).high == if Next(s, key).score > s.high then Next(s, key).score else s.high
  {
    hide Place, Distinct, Connected;
  }

  /** The generator: the next number is also its next state. */
  function Lcg(x: nat): nat {
    (x * 1664525 + 1013904223) % 0x1_0000_0000
  }

  function Drawn(seed: nat, k: nat): nat {
    if k == 0 then seed else Lcg(Drawn(seed, k - 1))
  }

  /** The cell of the k-th try: column and row are the next two numbers. */
  function Try(seed: nat, k: nat): Pt {
    Pt(Drawn(seed, 2 * k + 1) % 40, Drawn(seed, 2 * k + 2) % 18)
  }

  lemma {:induction false} DrawnOn(seed: nat, k: nat)
    ensures Drawn(seed, k + 2) == Drawn(Lcg(Lcg(seed)), k)
    decreases k
  {
    hide Lcg;
    if k == 0 {
      assert Drawn(seed, 1) == Lcg(Drawn(seed, 0));
    } else {
      DrawnOn(seed, k - 1);
    }
  }

  lemma NextTry(seed: nat, i: nat)
    ensures Try(seed, i + 1) == Try(Lcg(Lcg(seed)), i)
  {
    hide Drawn;
    DrawnOn(seed, 2 * i + 1);
    DrawnOn(seed, 2 * i + 2);
  }

  lemma FirstTry(body: seq<Pt>, seed: nat, tries: nat)
    requires tries > 0
    ensures Drawn(seed, 2) == Lcg(Lcg(seed))
    ensures Place(body, seed, tries) ==
            if Try(seed, 0) !in body then (Try(seed, 0), Drawn(seed, 2)) else Place(body, Lcg(Lcg(seed)), tries - 1)
  {
    hide Lcg, Rng;
    RngIsLcg(seed);
    RngIsLcg(Lcg(seed));
    assert Drawn(seed, 0) == seed && Drawn(seed, 1) == Lcg(seed) && Drawn(seed, 2) == Lcg(Lcg(seed));
  }

  lemma RngIsLcg(x: nat)
    ensures Rng(x) == Lcg(x)
  {
  }

  /** Food lies on the first cell drawn that is not on the snake; if no cell drawn is free, there is no food. */
  lemma {:induction false} PlaceMeaning(body: seq<Pt>, seed: nat, tries: nat) returns (k: nat)
    ensures k <= tries && forall i :: 0 <= i < k ==> Try(seed, i) in body
    ensures k < tries ==> Try(seed, k) !in body && Place(body, seed, tries) == (Try(seed, k), Drawn(seed, 2 * k + 2))
    ensures k == tries ==> Place(body, seed, tries) == (Pt(-1, -1), Drawn(seed, 2 * k))
    decreases tries
  {
    hide Lcg, Rng, Try, Drawn;
    k := 0;
    if tries == 0 {
      DrawnNone(seed);
    } else {
      FirstTry(body, seed, tries);
      if Try(seed, 0) in body {
        var next := Lcg(Lcg(seed));
        var j := PlaceMeaning(body, next, tries - 1);
        k := j + 1;
        NextTry(seed, j);
        DrawnOn(seed, 2 * j);
        DrawnOn(seed, 2 * j + 2);
        forall i | 0 <= i < k ensures Try(seed, i) in body {
          if i > 0 { NextTry(seed, i - 1); }
        }
      }
    }
  }

  lemma DrawnNone(seed: nat)
    ensures Drawn(seed, 0) == seed
  {
  }

  /** Where food is put: among at most 1000 cells drawn. */
  lemma FoodIsDrawn(s: State, key: Key) returns (k: nat)
    requires Good(s) && !Next(s, key).dead && Next(s, key).score > s.score
    ensures var t := Next(s, key);
            k <= 1000 && (forall i :: 0 <= i < k ==> Try(s.rng, i) in t.body)
            && t.food == if k == 1000 then Pt(-1, -1) else Try(s.rng, k)
  {
    hide Lcg, Rng, Try, Drawn, Place, SnakeBody;
    k := PlaceMeaning(Next(s, key).body, s.rng, 1000);
  }

  // ---------------------------------------------------------------- the game

  class Game {
    const body: array<Pt>
    var len: nat
    var dir: Pt
    var pending: Pt
    var food: Pt
    var score: nat
    var high: nat
    var dead: bool
    var rng: nat

    ghost predicate Valid()
      reads this, body
    {
      body.Length == MAX && len <= MAX && pending == dir && Good(Abs())
    }

    ghost function Abs(): State
      reads this, body
      requires len <= body.Length
    {
      State(body[..len], dir, food, score, high, dead, rng)
    }

    /** catnake_occupied */
    method Occupied(x: int, y: int) returns (r: bool)
      requires len <= body.Length
      ensures r <==> Pt(x, y) in body[..len]
    {
      for i := 0 to len
        invariant Pt(x, y) !in body[..i]
      {
        if body[i].x == x && body[i].y == y { return true; }
      }
      return false;
    }

    /** catnake_place_food */
    method PlaceFood()
      requires len <= body.Length
      modifies this`food, this`rng
      ensures (food, rng) == Place(body[..len], old(rng), TRIES)
    {
      ghost var b := body[..len];
      for i := 0 to TRIES
        invariant Place(b, old(rng), TRIES) == Place(b, rng, TRIES - i)
        invariant body[..len] == b
      {
        rng := Rng(rng);
        var x := rng % WIDTH;
        rng := Rng(rng);
        var y := rng % HEIGHT;
        var taken := Occupied(x, y);
        if !taken {
          food := Pt(x, y);
          return;
        }
      }
      food := NOWHERE;
    }

    /** The start of a game. */
    constructor (seed: nat, best: nat)
      ensures Valid() && fresh(body) && Abs() == Start(seed, best)
    {
      body := new Pt[MAX](_ => NOWHERE);
      len, dir, pending, score, high, dead, rng := 4, Pt(1, 0), Pt(1, 0), 0, best, false, seed;
      new;
      for i := 0 to 4
        invariant forall j :: 0 <= j < i ==> body[j] == Pt(10 - j, 9)
        invariant len == 4 && dir == pending == Pt(1, 0) && score == 0 && high == best && !dead && rng == seed
      {
        body[i] := Pt(10 - i, 9);
      }
      assert body[..len] == [Pt(10, 9), Pt(9, 9), Pt(8, 9), Pt(7, 9)];
      PlaceFood();
      StartIsGood(seed, best);
    }

    /** Moves every segment to the place of the one before it. */
    method Shift(head: Pt)
      requires 0 < len <= body.Length
      modifies body
      ensures body[..len] == [head] + old(body[..len])[..len - 1]
    {
      var i := len - 1;
      while i > 0
        invariant 0 <= i < len
        invariant forall j :: 0 <= j <= i ==> body[j] == old(body[j])
        invariant forall j :: i < j < len ==> body[j] == old(body[j - 1])
      {
        body[i] := body[i - 1];
        i := i - 1;
      }
      body[0] := head;
    }

    /** The key handling at the start of a step. */
    method Steer(key: Key)
      requires pending == dir
      modifies this`dir, this`pending
      ensures pending == dir == Turned(old(dir), key)
    {
      if key == Up { if dir.y == 0 { pending := Pt(0, -1); } }
      if key == Down { if dir.y == 0 { pending := Pt(0, 1); } }
      if key == Left { if dir.x == 0 { pending := Pt(-1, 0); } }
      if key == Right { if dir.x == 0 { pending := Pt(1, 0); } }
      dir := pending;
    }

    /** The walls and the body end the game. */
    method Collides(head: Pt) returns (hit: bool)
      requires len <= body.Length
      ensures hit <==> !InGrid(head) || head in body[..len]
    {
      if head.x < 0 || head.x >= WIDTH || head.y < 0 || head.y >= HEIGHT { return true; }
      hit := Occupied(head.x, head.y);
    }

    /** One turn of the inner loop of catnake_run. */
    method Step(key: Key)
      requires Valid()
      modifies this, body
      ensures Valid() && Abs() == Next(old(Abs()), key)
    {
      hide Next, SnakeBody;
      LongEnough(Abs());
      NextKeepsGood(Abs(), key);
      if dead {
        NextOfDead(Abs(), key);
        return;
      }
      Play(key);
    }

    /** The step of a game that is not over. */
    method Play(key: Key)
      requires 0 < len <= MAX == body.Length && pending == dir && !dead
      modifies this, body
      ensures len <= MAX && pending == dir && Abs() == Next(old(Abs()), key)
    {
      hide Moved, Turned;
      Steer(key);
      var head := Pt(body[0].x + dir.x, body[0].y + dir.y);
      assert head == Add(old(Abs()).body[0], dir);
      var hit := Collides(head);
      if hit {
        dead := true;
        return;
      }
      Advance(head);
    }

    method Append(tail: Pt)
      requires len < body.Length
      modifies this`len, body
      ensures len == old(len) + 1 && body[..len] == old(body[..len]) + [tail]
    {
      body[len] := tail;
      len := len + 1;
      assert body[..old(len)] == old(body[..len]);
    }

    /** The rest of a step when the way is free. */
    method Advance(head: Pt)
      requires 0 < len <= MAX == body.Length
      modifies this`len, this`score, this`high, this`food, this`rng, body
      ensures len <= MAX && Abs() == Moved(old(Abs()), head)
    {
      hide Place;
      var oldTail := body[len - 1];
      Shift(head);
      assert body[0] == body[..len][0];
      if body[0].x == food.x && body[0].y == food.y {
        if len < MAX { Append(oldTail); }
        score := score + 1;
        if score > high { high := score; }
        PlaceFood();
      }
    }
  }
}
