/**
 The snake game: `update` keeps a linked list of cells in step with the flags on the board
 (snake/src/game.c:25-159, snake/src/game_setup.c:54-139).

 The random choice of `place_food` is a parameter of the step; running out of attempts ends the program.
 */
module Snake {
  import opened Arithmetic
  import opened LinkedLists

  datatype Cell = Cell(snake: bool, wall: bool, food: bool, grass: bool)

  const PLAIN := Cell(false, false, false, false)
  const WALL := Cell(false, true, false, false)
  const GRASS := Cell(false, false, false, true)

  datatype Direction = Up | Down | Left | Right

  datatype Input = PressUp | PressDown | PressLeft | PressRight | NoKey

  /** A snake longer than one cell cannot turn back on itself. */
  function Turn(dir: Direction, len: nat, input: Input): Direction {
    match input
    case NoKey => dir
    case PressDown => if !(len > 1) || dir != Up then Down else dir
    case PressUp => if !(len > 1) || dir != Down then Up else dir
    case PressLeft => if !(len > 1) || dir != Right then Left else dir
    case PressRight => if !(len > 1) || dir != Left then Right else dir
  }

  function Ahead(head: nat, dir: Direction, width: nat): int {
    match dir
    case Up => head - width
    case Down => head + width
    case Right => head + 1
    case Left => head - 1
  }

  datatype State = State(cells: seq<Cell>, snake: seq<nat>, dir: Direction, score: nat, over: bool)

  /** `place_food` takes only cells that are plain or hold nothing but grass. */
  predicate Plantable(cells: seq<Cell>, f: nat) {
    f < |cells| && (cells[f] == PLAIN || cells[f] == GRASS)
  }

  function Plant(cells: seq<Cell>, f: nat): seq<Cell>
    requires f < |cells|
  {
    cells[f := cells[f].(food := true)]
  }

  /** Takes the last cell off the snake, and its flag unless the head has just come there. */
  function DropTail(s: State): State
    requires s.snake != [] && s.snake[|s.snake| - 1] < |s.cells|
  {
    var last := s.snake[|s.snake| - 1];
    var rest := s.snake[..|s.snake| - 1];
    State(if rest == [] || rest[0] != last then s.cells[last := s.cells[last].(snake := false)] else s.cells,
          rest, s.dir, s.score, s.over)
  }

  predicate Blocked(s: State, cell: nat)
    requires s.snake != [] && cell < |s.cells|
  {
    s.cells[cell].wall || (s.cells[cell].snake && s.snake[|s.snake| - 1] != cell)
  }

  /** One call of `update`.  `f` is where food is put, if it is eaten. */
  function Step(s: State, width: nat, input: Input, growing: bool, f: nat): State
    requires InBoard(s, width)
  {
    var dir := Turn(s.dir, |s.snake|, input);
    var cell := Ahead(s.snake[0], dir, width);
    if Blocked(s, cell) then State(s.cells, s.snake, dir, s.score, true)
    else MoveTo(s.(dir := dir), cell, growing, f)
  }

  /** The head moves to `cell`, which is free or being left by the tail. */
  function MoveTo(s: State, cell: nat, growing: bool, f: nat): State
    requires cell < |s.cells| && forall k: nat :: k < |s.snake| ==> s.snake[k] < |s.cells|
  {
    var moved := Lengthened(s, cell);
    if s.cells[cell].food then
      var fed := Fed(moved, cell, f);
      if growing then fed else DropTail(fed)
    else DropTail(moved)
  }

  /** With a new head. */
  function Lengthened(s: State, cell: nat): State
    requires cell < |s.cells|
  {
    s.(cells := s.cells[cell := s.cells[cell].(snake := true)], snake := [cell] + s.snake)
  }

  /** With the food at the head eaten and new food put out. */
  function Fed(s: State, cell: nat, f: nat): State
    requires cell < |s.cells|
  {
    var eaten := s.(cells := s.cells[cell := s.cells[cell].(food := false)], score := s.score + 1);
    if f < |eaten.cells| then eaten.(cells := Plant(eaten.cells, f)) else eaten
  }

  /** What `update` needs to stay on the board: walls all around, and a snake off the walls. */
  predicate InBoard(s: State, width: nat) {
    && width >= 3 && s.snake != [] && Bordered(s.cells, width)
    && (forall k: nat :: k < |s.snake| ==> s.snake[k] < |s.cells|)
    && !s.cells[s.snake[0]].wall
  }

  predicate OnBorder(i: nat, width: nat, n: nat)
    requires width > 0
  {
    i < width || i + width >= n || i % width == 0 || i % width == width - 1
  }

  predicate Bordered(cells: seq<Cell>, width: nat)
    requires width > 0
  {
    forall i: nat :: i < |cells| && OnBorder(i, width, |cells|) ==> cells[i].wall
  }

  /** Whatever cell `place_food` finds for the food eaten in this step, if it is eaten. */
  predicate FoodOk(s: State, width: nat, input: Input, f: nat)
    requires InBoard(s, width)
  {
    var cell := Ahead(s.snake[0], Turn(s.dir, |s.snake|, input), width);
    !Blocked(s, cell) && s.cells[cell].food ==>
      Plantable(s.cells[cell := s.cells[cell].(snake := true, food := false)], f)
  }

  // ---- The invariant ----

  /** Neighbouring cells: side by side in a row, or one above the other. */
  predicate Adjacent(a: nat, b: nat, width: nat)
    requires width > 0
  {
    (a / width == b / width && (a == b + 1 || b == a + 1)) || a == b + width || b == a + width
  }

  ghost predicate SameTerrain(cells: seq<Cell>, base: seq<Cell>) {
    |cells| == |base| && forall i: nat :: i < |cells| ==> cells[i].wall == base[i].wall && cells[i].grass == base[i].grass
  }

  ghost predicate OneFood(cells: seq<Cell>) {
    exists f: nat :: FoodAt(cells, f)
  }

  ghost predicate FoodAt(cells: seq<Cell>, f: nat) {
    f < |cells| && cells[f].food && forall i: nat :: i < |cells| && i != f ==> !cells[i].food
  }

  ghost predicate SnakeOk(cells: seq<Cell>, snake: seq<nat>, width: nat)
    requires width > 0
  {
    && snake != []
    && (forall k: nat :: k < |snake| ==> snake[k] < |cells| && !cells[snake[k]].wall && !cells[snake[k]].food)
    && (forall j: nat, k: nat :: j < k < |snake| ==> snake[j] != snake[k])
    && (forall k: nat :: k + 1 < |snake| ==> Adjacent(snake[k], snake[k + 1], width))
    && (forall i: nat :: i < |cells| ==> (cells[i].snake <==> i in snake))
  }

  ghost predicate Inv(s: State, base: seq<Cell>, width: nat, growing: bool) {
    && width >= 3 && Bordered(s.cells, width) && SameTerrain(s.cells, base)
    && SnakeOk(s.cells, s.snake, width)
    && OneFood(s.cells)
    && |s.snake| == if growing then 1 + s.score else 1
  }

  /** The cell ahead of an inner cell is on the board, next to it, and not the cell itself. */
  lemma AheadOk(head: nat, dir: Direction, width: nat, n: nat)
    requires width >= 3 && head < n && !OnBorder(head, width, n)
    ensures var cell := Ahead(head, dir, width); 0 <= cell < n && cell != head && Adjacent(cell, head, width)
  {
    RowNeighbours(head, width);
  }

  lemma RowNeighbours(i: nat, width: nat)
    requires width >= 3 && 0 < i % width < width - 1
    ensures (i + 1) / width == i / width && i >= 1 && (i - 1) / width == i / width
  {
    var q, r := i / width, i % width;
    assert i == q * width + r;
    Quotient(i + 1, width, q, r + 1);
    Quotient(i - 1, width, q, r - 1);
  }

  // ---- One step ----

  lemma GrowOk(cells: seq<Cell>, snake: seq<nat>, width: nat, cell: nat)
    requires width > 0 && SnakeOk(cells, snake, width)
    requires cell < |cells| && cell !in snake && !cells[cell].wall && Adjacent(cell, snake[0], width)
    ensures SnakeOk(cells[cell := cells[cell].(snake := true, food := false)], [cell] + snake, width)
  {
    hide Adjacent;
    var cells', snake' := cells[cell := cells[cell].(snake := true, food := false)], [cell] + snake;
    forall k: nat | k + 1 < |snake'| ensures Adjacent(snake'[k], snake'[k + 1], width) {
      assert k > 0 ==> snake'[k] == snake[k - 1] && snake'[k + 1] == snake[k];
    }
    forall i: nat | i < |cells'| ensures cells'[i].snake <==> i in snake' {
      assert i in snake' <==> i == cell || i in snake;
    }
  }

  lemma PlantOk(cells: seq<Cell>, snake: seq<nat>, width: nat, f: nat)
    requires width > 0 && SnakeOk(cells, snake, width) && Plantable(cells, f)
    ensures SnakeOk(Plant(cells, f), snake, width)
  {
    hide Adjacent;
    assert f !in snake;
  }

  lemma ShrinkOk(cells: seq<Cell>, snake: seq<nat>, width: nat)
    requires width > 0 && SnakeOk(cells, snake, width) && |snake| >= 2
    ensures var last := snake[|snake| - 1];
            && snake[0] != last && last < |cells|
            && SnakeOk(cells[last := cells[last].(snake := false)], snake[..|snake| - 1], width)
  {
    hide Adjacent;
    var last, rest := snake[|snake| - 1], snake[..|snake| - 1];
    var cells' := cells[last := cells[last].(snake := false)];
    forall i: nat | i < |cells'| ensures cells'[i].snake <==> i in rest {
      assert snake == rest + [last];
    }
  }

  /** Following one's own tail: the head takes the cell the tail leaves. */
  lemma ChaseOk(cells: seq<Cell>, snake: seq<nat>, width: nat)
    requires width > 0 && SnakeOk(cells, snake, width) && |snake| >= 2
    requires Adjacent(snake[|snake| - 1], snake[0], width)
    ensures SnakeOk(cells, [snake[|snake| - 1]] + snake[..|snake| - 1], width)
  {
    hide Adjacent;
    var last, rest := snake[|snake| - 1], snake[..|snake| - 1];
    var snake' := [last] + rest;
    assert snake == rest + [last];
    forall k: nat | k + 1 < |snake'| ensures Adjacent(snake'[k], snake'[k + 1], width) {
      assert k > 0 ==> snake'[k] == snake[k - 1] && snake'[k + 1] == snake[k];
    }
  }

  lemma SameFood(cells: seq<Cell>, cells': seq<Cell>)
    requires OneFood(cells) && |cells'| == |cells|
    requires forall i: nat :: i < |cells| ==> cells'[i].food == cells[i].food
    ensures OneFood(cells')
  {
    var f: nat :| FoodAt(cells, f);
    assert FoodAt(cells', f);
  }

  lemma MovedFood(cells: seq<Cell>, cells': seq<Cell>, cell: nat, f: nat)
    requires OneFood(cells) && |cells'| == |cells| && cell < |cells| && cells[cell].food && f < |cells|
    requires forall i: nat :: i < |cells| ==> cells'[i].food == ((cells[i].food && i != cell) || i == f)
    ensures OneFood(cells')
  {
    var g: nat :| FoodAt(cells, g);
    assert FoodAt(cells', f);
  }

  /** Walls stay, so the border stays. */
  lemma BorderKept(cells: seq<Cell>, cells': seq<Cell>, base: seq<Cell>, width: nat)
    requires width > 0 && Bordered(cells, width) && SameTerrain(cells, base) && |cells'| == |cells|
    requires forall i: nat :: i < |cells| ==> cells'[i].wall == cells[i].wall && cells'[i].grass == cells[i].grass
    ensures Bordered(cells', width) && SameTerrain(cells', base)
  {
    hide OnBorder;
  }

  lemma InvInBoard(s: State, base: seq<Cell>, width: nat, growing: bool)
    requires Inv(s, base, width, growing)
    ensures InBoard(s, width) && !OnBorder(s.snake[0], width, |s.cells|)
  {
  }

  lemma MoveEats(s: State, cell: nat, growing: bool, f: nat, width: nat)
    requires width > 0 && SnakeOk(s.cells, s.snake, width) && cell < |s.cells| && cell !in s.snake
    requires !s.cells[cell].wall && s.cells[cell].food && Adjacent(cell, s.snake[0], width)
    requires Plantable(s.cells[cell := s.cells[cell].(snake := true, food := false)], f)
    ensures var t := MoveTo(s, cell, growing, f);
            && SnakeOk(t.cells, t.snake, width) && t.score == s.score + 1
            && |t.snake| == if growing then |s.snake| + 1 else |s.snake|
  {
    hide Adjacent, SnakeOk;
    var cells1, snake1 := s.cells[cell := s.cells[cell].(snake := true, food := false)], [cell] + s.snake;
    GrowOk(s.cells, s.snake, width, cell);
    PlantOk(cells1, snake1, width, f);
    NotEmpty(s.cells, s.snake, width);
    ShrinkOk(Plant(cells1, f), snake1, width);
    assert s.cells[cell := s.cells[cell].(snake := true)][cell := s.cells[cell].(snake := true).(food := false)] == cells1;
  }

  lemma NotEmpty(cells: seq<Cell>, snake: seq<nat>, width: nat)
    requires width > 0 && SnakeOk(cells, snake, width)
    ensures |snake| >= 1 && forall k: nat :: k < |snake| ==> snake[k] < |cells|
  {
  }

  lemma MoveOn(s: State, cell: nat, growing: bool, f: nat, width: nat)
    requires width > 0 && SnakeOk(s.cells, s.snake, width) && cell < |s.cells| && cell !in s.snake
    requires !s.cells[cell].wall && !s.cells[cell].food && Adjacent(cell, s.snake[0], width)
    ensures var t := MoveTo(s, cell, growing, f);
            SnakeOk(t.cells, t.snake, width) && t.score == s.score && |t.snake| == |s.snake|
  {
    hide Adjacent, SnakeOk;
    var cells1, snake1 := s.cells[cell := s.cells[cell].(snake := true, food := false)], [cell] + s.snake;
    GrowOk(s.cells, s.snake, width, cell);
    NotEmpty(s.cells, s.snake, width);
    ShrinkOk(cells1, snake1, width);
    assert s.cells[cell := s.cells[cell].(snake := true)] == cells1;
  }

  lemma MoveChases(s: State, cell: nat, growing: bool, f: nat, width: nat)
    requires width > 0 && SnakeOk(s.cells, s.snake, width) && cell < |s.cells|
    requires |s.snake| >= 2 && s.snake[|s.snake| - 1] == cell && Adjacent(cell, s.snake[0], width)
    ensures var t := MoveTo(s, cell, growing, f);
            SnakeOk(t.cells, t.snake, width) && t.score == s.score && |t.snake| == |s.snake|
  {
    hide Adjacent;
    var snake1 := [cell] + s.snake;
    ChaseOk(s.cells, s.snake, width);
    assert cell in s.snake;
    assert s.cells[cell := s.cells[cell].(snake := true)] == s.cells;
    hide SnakeOk;
    assert snake1[..|snake1| - 1] == [cell] + s.snake[..|s.snake| - 1];
  }

  /** The snake after a step that is not blocked. */
  lemma StepSnake(s: State, base: seq<Cell>, width: nat, growing: bool, cell: nat, f: nat)
    requires Inv(s, base, width, growing) && cell < |s.cells| && cell != s.snake[0] && Adjacent(cell, s.snake[0], width)
    requires !Blocked(s, cell)
    requires s.cells[cell].food ==> Plantable(s.cells[cell := s.cells[cell].(snake := true, food := false)], f)
    ensures var t := MoveTo(s, cell, growing, f);
            SnakeOk(t.cells, t.snake, width) && |t.snake| == if growing then 1 + t.score else 1
  {
    hide Bordered, SameTerrain, OneFood, Adjacent, MoveTo;
    if cell !in s.snake {
      if s.cells[cell].food { MoveEats(s, cell, growing, f, width); } else { MoveOn(s, cell, growing, f, width); }
    } else {
      assert s.cells[cell].snake;
      MoveChases(s, cell, growing, f, width);
    }
  }

  /** Dropping the tail changes a snake flag and no other. */
  lemma DropFlags(s: State)
    requires s.snake != [] && s.snake[|s.snake| - 1] < |s.cells|
    ensures var t := DropTail(s);
            && |t.cells| == |s.cells|
            && forall i: nat :: i < |s.cells| ==>
                 t.cells[i].wall == s.cells[i].wall && t.cells[i].grass == s.cells[i].grass && t.cells[i].food == s.cells[i].food
  {
  }

  lemma FedFlags(s: State, cell: nat, f: nat)
    requires cell < |s.cells| && f < |s.cells|
    ensures var t := Fed(s, cell, f);
            && |t.cells| == |s.cells| && t.snake == s.snake
            && forall i: nat :: i < |s.cells| ==>
                 && t.cells[i].wall == s.cells[i].wall && t.cells[i].grass == s.cells[i].grass
                 && t.cells[i].food == ((s.cells[i].food && i != cell) || i == f)
  {
  }

  lemma LengthenedFlags(s: State, cell: nat)
    requires cell < |s.cells|
    ensures var t := Lengthened(s, cell);
            && t.cells == s.cells[cell := s.cells[cell].(snake := true)] && t.snake == [cell] + s.snake
            && forall i: nat :: i < |s.cells| ==>
                 t.cells[i].wall == s.cells[i].wall && t.cells[i].grass == s.cells[i].grass && t.cells[i].food == s.cells[i].food
  {
  }

  /** Flags other than the snake's after a step that is not blocked. */
  lemma StepFlags(s: State, growing: bool, cell: nat, f: nat)
    requires s.snake != [] && cell < |s.cells| && forall k: nat :: k < |s.snake| ==> s.snake[k] < |s.cells|
    requires s.cells[cell].food ==> Plantable(s.cells[cell := s.cells[cell].(snake := true, food := false)], f)
    ensures var t := MoveTo(s, cell, growing, f);
            && |t.cells| == |s.cells|
            && (forall i: nat :: i < |s.cells| ==>
                  && t.cells[i].wall == s.cells[i].wall && t.cells[i].grass == s.cells[i].grass
                  && t.cells[i].food ==
                     if s.cells[cell].food then (s.cells[i].food && i != cell) || i == f else s.cells[i].food)
            && (s.cells[cell].food ==> f < |s.cells|)
  {
    hide DropTail, Lengthened, Fed;
    LengthenedFlags(s, cell);
    var moved := Lengthened(s, cell);
    if s.cells[cell].food {
      FedFlags(moved, cell, f);
      if !growing { DropFlags(Fed(moved, cell, f)); }
    } else {
      DropFlags(moved);
    }
  }

  lemma StepKeeps(s: State, base: seq<Cell>, width: nat, input: Input, growing: bool, f: nat)
    requires Inv(s, base, width, growing) && InBoard(s, width) && FoodOk(s, width, input, f)
    ensures Inv(Step(s, width, input, growing, f), base, width, growing)
  {
    InvInBoard(s, base, width, growing);
    AheadOk(s.snake[0], Turn(s.dir, |s.snake|, input), width, |s.cells|);
    hide Turn, Ahead, SnakeOk, OneFood, Bordered, SameTerrain, MoveTo, Adjacent;
    var cell := Ahead(s.snake[0], Turn(s.dir, |s.snake|, input), width);
    if !Blocked(s, cell) {
      var s1 := s.(dir := Turn(s.dir, |s.snake|, input));
      var t := MoveTo(s1, cell, growing, f);
      StepSnake(s1, base, width, growing, cell, f);
      StepFlags(s1, growing, cell, f);
      BorderKept(s.cells, t.cells, base, width);
      if s.cells[cell].food { MovedFood(s.cells, t.cells, cell, f); } else { SameFood(s.cells, t.cells); }
    }
  }

  // ---- What a step is, in rows and columns ----

  /** The direction after a key: a snake longer than one cell does not turn back on itself. */
  lemma TurnExact(dir: Direction, len: nat, input: Input)
    ensures var d := Turn(dir, len, input);
            && (input == NoKey ==> d == dir)
            && (input == PressUp ==> d == if len > 1 && dir == Down then Down else Up)
            && (input == PressDown ==> d == if len > 1 && dir == Up then Up else Down)
            && (input == PressLeft ==> d == if len > 1 && dir == Right then Right else Left)
            && (input == PressRight ==> d == if len > 1 && dir == Left then Left else Right)
  {
  }

  /** The cell ahead is one row up or down, or one column left or right. */
  lemma AheadExact(head: nat, dir: Direction, width: nat, n: nat)
    requires width >= 3 && head < n && !OnBorder(head, width, n)
    ensures var cell := Ahead(head, dir, width);
            && 0 <= cell < n && cell % width >= 0
            && cell / width == head / width + (if dir == Up then -1 else if dir == Down then 1 else 0)
            && cell % width == head % width + (if dir == Left then -1 else if dir == Right then 1 else 0)
  {
    var q, r := head / width, head % width;
    assert head == q * width + r;
    RowNeighbours(head, width);
    match dir
    case Up => assert (q - 1) * width == q * width - width; Quotient(head - width, width, q - 1, r);
    case Down => assert (q + 1) * width == q * width + width; Quotient(head + width, width, q + 1, r);
    case Left => Quotient(head - 1, width, q, r - 1);
    case Right => Quotient(head + 1, width, q, r + 1);
  }

  /** What is on the board when the head has come to `cell`, and the tail has left `last` if it `leaves`. */
  ghost predicate Redrawn(cells: seq<Cell>, cells': seq<Cell>, cell: nat, last: nat, leaves: bool, f: nat)
    requires cell < |cells|
  {
    |cells'| == |cells| && forall i: nat :: i < |cells| ==>
      && cells'[i].wall == cells[i].wall && cells'[i].grass == cells[i].grass
      && (cells'[i].snake <==> i == cell || (cells[i].snake && !(leaves && i == last)))
      && (cells'[i].food <==> if cells[cell].food then i == f || (cells[i].food && i != cell) else cells[i].food)
  }

  /** The whole step: where the head goes, when the game ends, and what is on the board and in the list. */
  lemma StepExact(s: State, width: nat, input: Input, growing: bool, f: nat) returns (cell: nat)
    requires InBoard(s, width) && FoodOk(s, width, input, f)
    ensures var t, head, last := Step(s, width, input, growing, f), s.snake[0], s.snake[|s.snake| - 1];
            && (input == NoKey ==> t.dir == s.dir)
            && (input == PressUp ==> t.dir == if |s.snake| > 1 && s.dir == Down then Down else Up)
            && (input == PressDown ==> t.dir == if |s.snake| > 1 && s.dir == Up then Up else Down)
            && (input == PressLeft ==> t.dir == if |s.snake| > 1 && s.dir == Right then Right else Left)
            && (input == PressRight ==> t.dir == if |s.snake| > 1 && s.dir == Left then Left else Right)
            && cell < |s.cells|
            && cell / width == head / width + (if t.dir == Up then -1 else if t.dir == Down then 1 else 0)
            && cell % width == head % width + (if t.dir == Left then -1 else if t.dir == Right then 1 else 0)
            && if s.cells[cell].wall || (s.cells[cell].snake && cell != last) then
                 t == State(s.cells, s.snake, t.dir, s.score, true)
               else
                 var food := s.cells[cell].food;
                 && t.over == s.over && t.score == s.score + (if food then 1 else 0)
                 && t.snake == [cell] + (if food && growing then s.snake else s.snake[..|s.snake| - 1])
                 && Redrawn(s.cells, t.cells, cell, last, !(food && growing), f)
  {
    hide Turn, Ahead, MoveTo;
    var dir := Turn(s.dir, |s.snake|, input);
    TurnExact(s.dir, |s.snake|, input);
    AheadExact(s.snake[0], dir, width, |s.cells|);
    cell := Ahead(s.snake[0], dir, width);
    if !Blocked(s, cell) { MoveExact(s.(dir := dir), cell, growing, f); }
  }

  lemma MoveExact(s: State, cell: nat, growing: bool, f: nat)
    requires s.snake != [] && cell < |s.cells| && forall k: nat :: k < |s.snake| ==> s.snake[k] < |s.cells|
    requires s.cells[cell].food ==> Plantable(s.cells[cell := s.cells[cell].(snake := true, food := false)], f)
    ensures var t, food := MoveTo(s, cell, growing, f), s.cells[cell].food;
            && t.over == s.over && t.dir == s.dir && t.score == s.score + (if food then 1 else 0)
            && t.snake == [cell] + (if food && growing then s.snake else s.snake[..|s.snake| - 1])
            && Redrawn(s.cells, t.cells, cell, s.snake[|s.snake| - 1], !(food && growing), f)
  {
    hide Lengthened, Fed, DropTail, Redrawn, Plantable;
    var last, moved := s.snake[|s.snake| - 1], Lengthened(s, cell);
    LengthenedExact(s, cell);
    assert moved.snake[|moved.snake| - 1] == last;
    assert moved.snake[..|moved.snake| - 1] == [cell] + s.snake[..|s.snake| - 1];
    if s.cells[cell].food {
      Planted(s.cells, cell, f);
      FedExact(moved, cell, f);
      var fed := Fed(moved, cell, f);
      if !growing { DropExact(fed); }
      EatenRedrawn(s.cells, fed.cells, if growing then fed.cells else DropTail(fed).cells, cell, last, !growing, f);
    } else {
      DropExact(moved);
      MovedRedrawn(s.cells, DropTail(moved).cells, cell, last, f);
    }
  }

  lemma Planted(cells: seq<Cell>, cell: nat, f: nat)
    requires cell < |cells| && Plantable(cells[cell := cells[cell].(snake := true, food := false)], f)
    ensures f < |cells|
  {
  }

  /** The tail's flag goes unless the head is there. */
  lemma DropExact(s: State)
    requires |s.snake| >= 2 && s.snake[|s.snake| - 1] < |s.cells|
    ensures var last := s.snake[|s.snake| - 1];
            DropTail(s) == State(if s.snake[0] != last then s.cells[last := s.cells[last].(snake := false)] else s.cells,
                                 s.snake[..|s.snake| - 1], s.dir, s.score, s.over)
  {
  }

  lemma MovedRedrawn(cells: seq<Cell>, cells': seq<Cell>, cell: nat, last: nat, f: nat)
    requires cell < |cells| && last < |cells| && !cells[cell].food
    requires var lit := cells[cell := cells[cell].(snake := true)];
             cells' == if cell != last then lit[last := lit[last].(snake := false)] else lit
    ensures Redrawn(cells, cells', cell, last, true, f)
  {
  }

  lemma EatenRedrawn(cells: seq<Cell>, fed: seq<Cell>, cells': seq<Cell>, cell: nat, last: nat, leaves: bool, f: nat)
    requires cell < |cells| && last < |cells| && cells[cell].food && |fed| == |cells|
    requires var lit := cells[cell := cells[cell].(snake := true)];
             forall i: nat :: i < |cells| ==> fed[i] == lit[i].(food := (lit[i].food && i != cell) || i == f)
    requires cells' == if leaves && cell != last then fed[last := fed[last].(snake := false)] else fed
    ensures Redrawn(cells, cells', cell, last, leaves, f)
  {
  }

  lemma LengthenedExact(s: State, cell: nat)
    requires cell < |s.cells|
    ensures Lengthened(s, cell) == State(s.cells[cell := s.cells[cell].(snake := true)], [cell] + s.snake, s.dir, s.score, s.over)
  {
  }

  lemma FedExact(s: State, cell: nat, f: nat)
    requires cell < |s.cells| && f < |s.cells|
    ensures var t := Fed(s, cell, f);
            && t == State(t.cells, s.snake, s.dir, s.score + 1, s.over) && |t.cells| == |s.cells|
            && forall i: nat :: i < |s.cells| ==> t.cells[i] == s.cells[i].(food := (s.cells[i].food && i != cell) || i == f)
  {
  }

  // ---- Whole games ----

  datatype Event = Event(input: Input, f: nat)

  /** `t` is reached by the given calls of `update`, none of which ended the program. */
  ghost predicate Play(s: State, width: nat, growing: bool, es: seq<Event>, t: State)
    decreases |es|
  {
    if es == [] then t == s
    else
      && InBoard(s, width) && FoodOk(s, width, es[0].input, es[0].f)
      && Play(Step(s, width, es[0].input, growing, es[0].f), width, growing, es[1..], t)
  }

  /** In a whole game the list holds distinct, adjacent cells that are exactly the flagged ones, there is
      one piece of food, walls and grass stay, and the length follows the score. */
  lemma {:induction false} GameKeeps(s: State, base: seq<Cell>, width: nat, growing: bool, es: seq<Event>, t: State)
    requires Inv(s, base, width, growing) && Play(s, width, growing, es, t)
    ensures Inv(t, base, width, growing)
    decreases |es|
  {
    if es != [] {
      hide Inv, Step, InBoard, FoodOk;
      StepKeeps(s, base, width, es[0].input, growing, es[0].f);
      GameKeeps(Step(s, width, es[0].input, growing, es[0].f), base, width, growing, es[1..], t);
    }
  }

  // ---- The default board ----

  const WIDTH := 20
  const HEIGHT := 10
  const START := 42

  /** Walls around the edge, a ring of grass inside them, and a snake of one cell. */
  function DefaultCell(i: nat): Cell {
    var row, col := i / WIDTH, i % WIDTH;
    if i == START then Cell(true, false, false, false)
    else if row == 0 || row == HEIGHT - 1 || col == 0 || col == WIDTH - 1 then WALL
    else if row == 1 || row == HEIGHT - 2 || col == 1 || col == WIDTH - 2 then GRASS
    else PLAIN
  }

  function DefaultBoard(): seq<Cell> { seq(WIDTH * HEIGHT, i requires 0 <= i => DefaultCell(i)) }

  function DefaultGame(f: nat): State
    requires Plantable(DefaultBoard(), f)
  {
    State(Plant(DefaultBoard(), f), [START], Right, 0, false)
  }

  lemma DefaultKeeps(f: nat, growing: bool)
    requires Plantable(DefaultBoard(), f)
    ensures Inv(DefaultGame(f), DefaultBoard(), WIDTH, growing)
  {
    var b, cells := DefaultBoard(), Plant(DefaultBoard(), f);
    forall i: nat | i < |b| && OnBorder(i, WIDTH, |b|) ensures b[i] == WALL { DefaultBorder(i); }
    assert FoodAt(cells, f);
    assert b[START].snake && f != START;
    forall i: nat | i < |cells| ensures cells[i].snake <==> i in [START] {}
  }

  /** The default board: walls in the outer ring of ten rows of twenty cells, grass in the next, one snake. */
  lemma DefaultExact(i: nat)
    requires i < |DefaultBoard()|
    ensures |DefaultBoard()| == 200 && WIDTH == 20 && START == 42
    ensures var c, row, col := DefaultBoard()[i], i / 20, i % 20;
            && (c.wall <==> row == 0 || row == 9 || col == 0 || col == 19)
            && (c.snake <==> row == 2 && col == 2) && !c.food
            && (c.grass <==> !c.wall && (row == 1 || row == 8 || col == 1 || col == 18))
  {
  }

  lemma DefaultBorder(i: nat)
    requires i < WIDTH * HEIGHT && OnBorder(i, WIDTH, WIDTH * HEIGHT)
    ensures DefaultCell(i) == WALL
  {
  }

  /** Every game from the default board, whatever is pressed and wherever food falls. */
  lemma DefaultGameKeeps(f: nat, growing: bool, es: seq<Event>, t: State)
    requires Plantable(DefaultBoard(), f) && Play(DefaultGame(f), WIDTH, growing, es, t)
    ensures Inv(t, DefaultBoard(), WIDTH, growing)
  {
    hide Inv, Play, DefaultGame;
    DefaultKeeps(f, growing);
    GameKeeps(DefaultGame(f), DefaultBoard(), WIDTH, growing, es, t);
  }

  // ---- The program ----

  class Game {
    const cells: array<Cell>
    const list: List
    var dir: Direction
    var score: nat
    var over: bool

    ghost function View(): State
      reads this, cells, list, list.nodes
    {
      State(cells[..], list.Elements(), dir, score, over)
    }

    /** `initialize_game` with the default board, before food is placed. */
    constructor ()
      ensures list.Valid() && fresh(cells) && fresh(list) && fresh(list.nodes)
      ensures View() == State(DefaultBoard(), [START], Right, 0, false)
    {
      var board := DefaultCells();
      var snake := new List();
      snake.InsertFirst(START);
      cells := board;
      list := snake;
      dir, score, over := Right, 0, false;
    }

    /** The loops of `initialize_default_board`. */
    static method DefaultCells() returns (a: array<Cell>)
      ensures fresh(a) && a[..] == DefaultBoard()
    {
      a := new Cell[WIDTH * HEIGHT](_ => PLAIN);
      var i: nat := 0;
      while i < WIDTH
        invariant i <= WIDTH
        invariant forall k: nat :: k < a.Length ==>
                    a[k] == if k < i || (k >= WIDTH * (HEIGHT - 1) && k < WIDTH * (HEIGHT - 1) + i) then WALL else PLAIN
      {
        a[i] := WALL;
        a[i + WIDTH * (HEIGHT - 1)] := WALL;
        i := i + 1;
      }
      i := 0;
      while i < HEIGHT
        invariant i <= HEIGHT
        invariant forall k: nat :: k < a.Length ==> a[k] == if WallSoFar(k, i) then WALL else PLAIN
      {
        a[i * WIDTH] := WALL;
        a[i * WIDTH + WIDTH - 1] := WALL;
        i := i + 1;
      }
      i := 1;
      while i < WIDTH - 1
        invariant 1 <= i <= WIDTH - 1
        invariant forall k: nat :: k < a.Length ==>
                    a[k] == if WallSoFar(k, HEIGHT) then WALL else if GrassRow(k, i) then GRASS else PLAIN
      {
        a[i + WIDTH] := GRASS;
        a[i + WIDTH * (HEIGHT - 2)] := GRASS;
        i := i + 1;
      }
      i := 1;
      while i < HEIGHT - 1
        invariant 1 <= i <= HEIGHT - 1
        invariant forall k: nat :: k < a.Length ==>
                    a[k] == if WallSoFar(k, HEIGHT) then WALL
                            else if GrassRow(k, WIDTH - 1) || GrassColumn(k, i) then GRASS else PLAIN
      {
        a[i * WIDTH + 1] := GRASS;
        a[i * WIDTH + WIDTH - 2] := GRASS;
        i := i + 1;
      }
      a[WIDTH * 2 + 2] := Cell(true, false, false, false);
      BoardDrawn(a[..]);
    }

    /** Tries as many random cells as there are; running out ends the program. */
    method PlaceFood() returns (ok: bool, f: nat)
      requires cells.Length > 0
      modifies cells
      ensures ok ==> Plantable(old(cells[..]), f) && cells[..] == Plant(old(cells[..]), f)
      ensures ok ==> var c := old(cells[..])[f];
                !c.snake && !c.wall && !c.food && cells[..] == old(cells[..])[f := Cell(false, false, true, c.grass)]
      ensures !ok ==> cells[..] == old(cells[..])
    {
      var attempts := 0;
      while attempts < cells.Length
        invariant cells[..] == old(cells[..])
      {
        f := *;
        f := f % cells.Length;
        if cells[f] == PLAIN || cells[f] == GRASS {
          cells[f] := cells[f].(food := true);
          return true, f;
        }
        attempts := attempts + 1;
      }
      return false, 0;
    }

    /** One call of `update`; `ok` is false when `place_food` ended the program. */
    method Update(width: nat, input: Input, growing: bool) returns (ok: bool, f: nat)
      requires list.Valid() && InBoard(View(), width)
      modifies this, cells, list, list.nodes
      ensures list.Valid() && forall n :: n in list.nodes ==> n in old(list.nodes) || fresh(n)
      ensures ok ==> FoodOk(old(View()), width, input, f) && View() == Step(old(View()), width, input, growing, f)
    {
      hide List.Valid, List.Elements, MoveTo, Turn, Ahead, InBoard, Plantable, Step, FoodOk;
      ghost var s := View();
      HeadOfBoard(s, width);
      StepCases(s, width, input, growing);
      ok, f := true, 0;
      var len := list.Length();
      dir := Turn(dir, len, input);
      var head := list.GetFirst();
      AheadInside(s, width, dir);
      var cell: nat := Ahead(head.value, dir, width);
      var tail := list.GetLast();
      if cells[cell].wall || (cells[cell].snake && tail.value != cell) {
        over := true;
        return;
      }
      ok, f := Advance(cell, growing);
    }

    /** The head moves on, eating what is there. */
    method Advance(cell: nat, growing: bool) returns (ok: bool, f: nat)
      requires list.Valid() && cell < cells.Length && list.Elements() != []
      requires forall k: nat :: k < |list.Elements()| ==> list.Elements()[k] < cells.Length
      modifies this`score, cells, list, list.nodes
      ensures list.Valid() && forall n :: n in list.nodes ==> n in old(list.nodes) || fresh(n)
      ensures ok ==> View() == MoveTo(old(View()), cell, growing, f)
      ensures ok && old(cells[cell].food) ==>
                Plantable(old(cells[..])[cell := old(cells[cell]).(snake := true, food := false)], f)
    {
      hide List.Valid, List.Elements, DropTail, Plantable, Lengthened, Fed;
      ghost var s := View();
      ok, f := true, 0;
      LengthenedFlags(s, cell);
      TwoFlags(s.cells, cell);
      Lengthen(cell);
      if cells[cell].food {
        ok, f := Swallow(cell);
        if !ok { return; }
        FedFlags(Lengthened(s, cell), cell, f);
        if !growing { RemoveTail(); }
      } else {
        RemoveTail();
      }
    }

    /** The snake gets a new head. */
    method Lengthen(cell: nat)
      requires list.Valid() && cell < cells.Length
      modifies cells, list, list.nodes
      ensures list.Valid() && |list.nodes| == |old(list.nodes)| + 1
      ensures fresh(list.nodes[0]) && list.nodes[1..] == old(list.nodes)
      ensures View() == Lengthened(old(View()), cell)
    {
      hide List.Valid, List.Elements;
      list.InsertFirst(cell);
      cells[cell] := cells[cell].(snake := true);
    }

    /** Scores, takes the food away and puts out new food. */
    method Swallow(cell: nat) returns (ok: bool, f: nat)
      requires cell < cells.Length
      modifies this`score, cells
      ensures ok ==> f < cells.Length && View() == Fed(old(View()), cell, f)
      ensures ok ==> Plantable(old(cells[..])[cell := old(cells[cell]).(food := false)], f)
    {
      hide List.Elements;
      score := score + 1;
      cells[cell] := cells[cell].(food := false);
      ok, f := PlaceFood();
    }

    /** Takes the last cell off the list, and its flag unless the head is there. */
    method RemoveTail()
      requires list.Valid() && |list.Elements()| >= 2
      requires list.Elements()[|list.Elements()| - 1] < cells.Length
      modifies cells, list, list.nodes
      ensures list.Valid() && View() == DropTail(old(View()))
      ensures forall n :: n in list.nodes ==> n in old(list.nodes)
    {
      hide List.Valid, List.Elements;
      var last := list.RemoveLast();
      var first := list.GetFirst();
      if first != last {
        cells[last.value] := cells[last.value].(snake := false);
      }
    }
  }

  lemma TwoFlags(cells: seq<Cell>, cell: nat)
    requires cell < |cells|
    ensures var lit := cells[cell := cells[cell].(snake := true)];
            lit[cell := lit[cell].(food := false)] == cells[cell := cells[cell].(snake := true, food := false)]
  {
  }

  /** A step by cases, for every place of the food. */
  lemma StepCases(s: State, width: nat, input: Input, growing: bool)
    requires InBoard(s, width)
    ensures var dir := Turn(s.dir, |s.snake|, input);
            var cell := Ahead(s.snake[0], dir, width);
            && 0 <= cell < |s.cells|
            && forall f: nat ::
                 if Blocked(s, cell) then
                   Step(s, width, input, growing, f) == State(s.cells, s.snake, dir, s.score, true) && FoodOk(s, width, input, f)
                 else
                   && Step(s, width, input, growing, f) == MoveTo(s.(dir := dir), cell, growing, f)
                   && (FoodOk(s, width, input, f) <==>
                         (s.cells[cell].food ==> Plantable(s.cells[cell := s.cells[cell].(snake := true, food := false)], f)))
  {
    hide MoveTo, Ahead, Turn, Plantable;
    AheadInside(s, width, Turn(s.dir, |s.snake|, input));
  }

  lemma HeadOfBoard(s: State, width: nat)
    requires InBoard(s, width)
    ensures s.snake != [] && s.snake[0] < |s.cells| && (forall k: nat :: k < |s.snake| ==> s.snake[k] < |s.cells|)
  {
  }

  lemma AheadInside(s: State, width: nat, dir: Direction)
    requires InBoard(s, width)
    ensures 0 <= Ahead(s.snake[0], dir, width) < |s.cells|
  {
    AheadOk(s.snake[0], dir, width, |s.cells|);
  }

  predicate WallSoFar(k: nat, i: nat) {
    k < WIDTH || k >= WIDTH * (HEIGHT - 1) || (k / WIDTH < i && (k % WIDTH == 0 || k % WIDTH == WIDTH - 1))
  }

  predicate GrassRow(k: nat, i: nat) {
    1 <= k % WIDTH < i && (k / WIDTH == 1 || k / WIDTH == HEIGHT - 2)
  }

  predicate GrassColumn(k: nat, i: nat) {
    1 <= k / WIDTH < i && (k % WIDTH == 1 || k % WIDTH == WIDTH - 2)
  }

  /** The walls, the grass inside them and the head of the snake are the default board. */
  lemma BoardDrawn(b: seq<Cell>)
    requires |b| == WIDTH * HEIGHT && b[START] == Cell(true, false, false, false)
    requires forall k: nat :: k < |b| && k != START ==>
               b[k] == if WallSoFar(k, HEIGHT) then WALL
                       else if GrassRow(k, WIDTH - 1) || GrassColumn(k, HEIGHT - 1) then GRASS else PLAIN
    ensures b == DefaultBoard()
  {
    forall k: nat | k < |b| ensures b[k] == DefaultCell(k) { DefaultPlaces(k); }
  }

  lemma DefaultPlaces(k: nat)
    requires k < WIDTH * HEIGHT
    ensures k != START ==>
              DefaultCell(k) == if WallSoFar(k, HEIGHT) then WALL
                                else if GrassRow(k, WIDTH - 1) || GrassColumn(k, HEIGHT - 1) then GRASS else PLAIN
  {
  }
}
