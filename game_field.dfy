/**
  The field engine of the game: a 10 x 20 grid of optional blocks, one falling
  piece, the avatar ("Mario") and the counters score, level and linesCleared.

  The pure part (piece creation, row clearing, the tick transition, the
  interval formula) is written as functions over values; the component state
  is the class Engine, whose methods change its fields and are proved to
  follow those functions.
*/
module GameField {
  import opened Wrappers

  const Width: int := 10
  const Height: int := 20
  const CoinBonus: int := 50
  const LinePoints: int := 100
  const LinesPerLevel: int := 10

  // ---------------------------------------------------------------------------
  // Data model
  // ---------------------------------------------------------------------------

  datatype Kind = Mario | Enemy | Coin | Tetris

  const MarioRed: string := "#FF6B35"
  const EnemyBrown: string := "#8B4513"
  const CoinYellow: string := "#FFD700"
  const TetrisBlue: string := "#4A90E2"

  /** The catalog of kinds and, at the same index, the colour of each kind. */
  const Kinds: seq<Kind> := [Mario, Enemy, Coin, Tetris]
  const Colors: seq<string> := [MarioRed, EnemyBrown, CoinYellow, TetrisBlue]

  /** A piece: falling (held in Engine.piece) or landed (held in a grid cell). */
  datatype Block = Block(x: int, y: int, color: string, kind: Kind)

  type Cell = Option<Block>

  datatype Position = Position(x: int, y: int)

  datatype Direction = Left | Right | Jump

  /** Row 0 is the top (spawn) row, row Height - 1 the bottom row. */
  predicate WellFormed(rows: seq<seq<Cell>>)
  {
    |rows| == Height && forall i :: 0 <= i < |rows| ==> |rows[i]| == Width
  }

  predicate PieceInside(p: Block)
  {
    0 <= p.x < Width && 0 <= p.y < Height
  }

  /** Where the avatar can be: any column, an even row no lower than Height - 2. */
  predicate AvatarInside(a: Position)
  {
    0 <= a.x < Width && 0 <= a.y <= Height - 2 && a.y % 2 == 0
  }

  // ---------------------------------------------------------------------------
  // Piece creation
  // ---------------------------------------------------------------------------

  /** Array.prototype.indexOf: the first index holding k, or -1. */
  function IndexOf(kinds: seq<Kind>, k: Kind): (i: int)
    ensures -1 <= i < |kinds|
    ensures i == -1 <==> k !in kinds
    ensures 0 <= i ==> kinds[i] == k && forall j :: 0 <= j < i ==> kinds[j] != k
  {
    if |kinds| == 0 then -1
    else if kinds[0] == k then 0
    else
      var j := IndexOf(kinds[1..], k);
      if j == -1 then -1 else j + 1
  }

  /**
    createNewPiece: the random choice is the parameter choice, an index into
    the catalog; the colour is looked up by the index of the chosen kind.
  */
  function NewPiece(choice: nat): (p: Block)
    requires choice < |Kinds|
    ensures p.x == Width / 2 == 5 && p.y == 0
    ensures p.kind == Kinds[choice] && p.color == Colors[choice]
    ensures PieceInside(p)
  {
    var kind := Kinds[choice];
    Block(Width / 2, 0, Colors[IndexOf(Kinds, kind)], kind)
  }

  // ---------------------------------------------------------------------------
  // Avatar movement
  // ---------------------------------------------------------------------------

  /** The immediate effect of moveMario: clamped steps, and a jump by two rows. */
  function Moved(a: Position, dir: Direction): (b: Position)
    ensures AvatarInside(a) ==> AvatarInside(b)
    ensures dir != Jump ==> b.y == a.y && -1 <= b.x - a.x <= 1
    ensures dir == Left ==> (b.x < a.x <==> a.x > 0)
    ensures dir == Right ==> (b.x > a.x <==> a.x < Width - 1)
    ensures dir == Jump ==> b.x == a.x && (b.y < a.y <==> a.y > 0)
    ensures dir == Left && a.x == 0 ==> b == a
    ensures dir == Right && a.x == Width - 1 ==> b == a
    ensures dir == Jump && a.y > 0 ==> b.y == a.y - 2
    ensures dir == Jump && a.y <= 0 ==> b == a
  {
    match dir
    case Left => if a.x > 0 then a.(x := a.x - 1) else a
    case Right => if a.x < Width - 1 then a.(x := a.x + 1) else a
    case Jump => if a.y > 0 then a.(y := a.y - 2) else a
  }

  /** The deferred callback of a jump: back down two rows, never below Height - 2. */
  function Restored(a: Position): (b: Position)
    ensures AvatarInside(a) ==> AvatarInside(b)
    ensures b.x == a.x && b.y <= a.y + 2
    ensures a.y <= Height - 2 ==> a.y <= b.y <= Height - 2
    ensures a.y + 2 <= Height - 2 ==> b.y == a.y + 2
    ensures a.y + 2 > Height - 2 ==> b.y == Height - 2
  {
    a.(y := if a.y + 2 < Height - 2 then a.y + 2 else Height - 2)
  }

  lemma JumpThenRestore(a: Position)
    requires AvatarInside(a) && a.y > 0
    ensures Restored(Moved(a, Jump)) == a
  {
  }

  /** A jump on the top row does not rise, but its restoration still falls. */
  lemma JumpFromTopRow(a: Position)
    requires AvatarInside(a) && a.y == 0
    ensures Moved(a, Jump) == a && Restored(Moved(a, Jump)).y == 2
  {
  }

  lemma StepsUndo(a: Position)
    requires AvatarInside(a)
    ensures a.x > 0 ==> Moved(Moved(a, Left), Right) == a
    ensures a.x < Width - 1 ==> Moved(Moved(a, Right), Left) == a
  {
  }

  /** The guard y > 0 alone keeps the avatar inside only because rows stay even. */
  lemma JumpNeedsEvenRow()
    ensures Moved(Position(0, 1), Jump).y == -1
  {
  }

  // ---------------------------------------------------------------------------
  // Line clearing
  // ---------------------------------------------------------------------------

  /** Array.prototype.every(cell => cell !== null). */
  predicate IsFull(row: seq<Cell>)
  {
    forall i :: 0 <= i < |row| ==> row[i].Some?
  }

  function EmptyRow(): seq<Cell>
  {
    seq(Width, _ => None)
  }

  /** k new empty rows, as put on top by unshift. */
  function EmptyRows(k: nat): (rows: seq<seq<Cell>>)
    ensures |rows| == k
    ensures forall i :: 0 <= i < k ==> rows[i] == EmptyRow()
  {
    if k == 0 then [] else [EmptyRow()] + EmptyRows(k - 1)
  }

  /** The number of full rows. */
  function CountFull(rows: seq<seq<Cell>>): nat
  {
    if |rows| == 0 then 0
    else (if IsFull(rows[0]) then 1 else 0) + CountFull(rows[1..])
  }

  /** The rows that are not full, in their original order. */
  function NonFullRows(rows: seq<seq<Cell>>): seq<seq<Cell>>
  {
    if |rows| == 0 then []
    else (if IsFull(rows[0]) then [] else [rows[0]]) + NonFullRows(rows[1..])
  }

  /** The grid after clearing: empty rows on top, then the rows that were not full. */
  function ClearedField(rows: seq<seq<Cell>>): (r: seq<seq<Cell>>)
    ensures |r| == |rows|
  {
    NonFullRowsShape(rows);
    EmptyRows(CountFull(rows)) + NonFullRows(rows)
  }

  lemma EmptyRowNotFull()
    ensures |EmptyRow()| == Width && !IsFull(EmptyRow())
  {
    assert EmptyRow()[0] == None;
  }

  lemma {:induction false} NonFullRowsShape(rows: seq<seq<Cell>>)
    ensures |NonFullRows(rows)| + CountFull(rows) == |rows|
    ensures forall r :: r in NonFullRows(rows) ==> r in rows && !IsFull(r)
  {
    if |rows| > 0 {
      NonFullRowsShape(rows[1..]);
    }
  }

  /** No row is full exactly when the count is 0, and then the filter keeps every row. */
  lemma {:induction false} NoFullRowUnchanged(rows: seq<seq<Cell>>)
    ensures CountFull(rows) == 0 <==> forall i :: 0 <= i < |rows| ==> !IsFull(rows[i])
    ensures CountFull(rows) == 0 ==> NonFullRows(rows) == rows
  {
    if |rows| > 0 {
      NoFullRowUnchanged(rows[1..]);
      assert forall i :: 1 <= i < |rows| ==> rows[i] == rows[1..][i - 1];
    }
  }

  lemma {:induction false} CountFullAppend(a: seq<seq<Cell>>, b: seq<seq<Cell>>)
    ensures CountFull(a + b) == CountFull(a) + CountFull(b)
    ensures NonFullRows(a + b) == NonFullRows(a) + NonFullRows(b)
  {
    if |a| == 0 {
      assert a + b == b;
    } else {
      assert (a + b)[1..] == a[1..] + b;
      CountFullAppend(a[1..], b);
    }
  }

  /**
    What clearing promises: the grid keeps its shape, the top CountFull rows
    are empty, below them come the rows that were not full in their original
    order, and no full row is left.
  */
  lemma ClearedFieldShape(rows: seq<seq<Cell>>)
    requires WellFormed(rows)
    ensures WellFormed(ClearedField(rows))
    ensures ClearedField(rows)[..CountFull(rows)] == EmptyRows(CountFull(rows))
    ensures ClearedField(rows)[CountFull(rows)..] == NonFullRows(rows)
    ensures forall i :: 0 <= i < Height ==> !IsFull(ClearedField(rows)[i])
  {
    NonFullRowsShape(rows);
    EmptyRowNotFull();
    var c := ClearedField(rows);
    var k := CountFull(rows);
    forall i | 0 <= i < |c|
      ensures |c[i]| == Width && !IsFull(c[i])
    {
      if i >= k {
        assert c[i] == NonFullRows(rows)[i - k];
        assert c[i] in NonFullRows(rows);
      }
    }
  }

  /** Clearing an already cleared grid changes nothing. */
  lemma ClearedFieldIdempotent(rows: seq<seq<Cell>>)
    requires WellFormed(rows)
    ensures CountFull(ClearedField(rows)) == 0
    ensures ClearedField(ClearedField(rows)) == ClearedField(rows)
  {
    ClearedFieldShape(rows);
    NoFullRowUnchanged(ClearedField(rows));
  }

  /** Adjacent full rows at the bottom are all cleared by one pass. */
  lemma StackedFullRowsCleared(top: seq<seq<Cell>>, r1: seq<Cell>, r2: seq<Cell>)
    requires forall i :: 0 <= i < |top| ==> !IsFull(top[i])
    requires IsFull(r1) && IsFull(r2)
    ensures CountFull(top + [r1, r2]) == 2
    ensures ClearedField(top + [r1, r2]) == EmptyRows(2) + top
  {
    NoFullRowUnchanged(top);
    CountFullAppend(top, [r1, r2]);
    assert [r1, r2][1..] == [r2] && [r2][1..] == [];
    assert CountFull([r2]) == 1 && NonFullRows([r2]) == [];
    assert CountFull([r1, r2]) == 2 && NonFullRows([r1, r2]) == [];
    assert NonFullRows(top + [r1, r2]) == top;
  }

  lemma SuffixStep(rows: seq<seq<Cell>>, j: nat)
    requires 0 < j <= |rows|
    ensures CountFull(rows[j - 1..]) == (if IsFull(rows[j - 1]) then 1 else 0) + CountFull(rows[j..])
    ensures NonFullRows(rows[j - 1..]) == (if IsFull(rows[j - 1]) then [] else [rows[j - 1]]) + NonFullRows(rows[j..])
  {
    assert rows[j - 1..][1..] == rows[j..];
  }

  /** The grid part-way through the scan: rows j.. of field are done, c rows cleared. */
  ghost function Scanned(field: seq<seq<Cell>>, c: nat, j: nat): seq<seq<Cell>>
    requires j <= |field|
  {
    EmptyRows(c) + field[..j] + NonFullRows(field[j..])
  }

  lemma ScanRowAt(field: seq<seq<Cell>>, c: nat, j: nat, y: int)
    requires j <= |field| && 0 <= y < c + j
    requires 0 < j ==> y == c + j - 1
    ensures y < |Scanned(field, c, j)|
    ensures Scanned(field, c, j)[y] == if j == 0 then EmptyRow() else field[j - 1]
  {
    var nf := Scanned(field, c, j);
    assert nf == (EmptyRows(c) + field[..j]) + NonFullRows(field[j..]);
    if j == 0 {
      assert nf[y] == EmptyRows(c)[y];
    } else {
      assert nf[y] == field[..j][j - 1];
    }
  }

  /** Splicing out row c + j - 1 and putting an empty row on top. */
  lemma ScanClearStep(field: seq<seq<Cell>>, c: nat, j: nat)
    requires 0 < j <= |field| && IsFull(field[j - 1])
    ensures c + j - 1 < |Scanned(field, c, j)|
    ensures var nf := Scanned(field, c, j);
      [EmptyRow()] + (nf[..c + j - 1] + nf[c + j..]) == Scanned(field, c + 1, j - 1)
    ensures CountFull(field[j - 1..]) == CountFull(field[j..]) + 1
  {
    SuffixStep(field, j);
    var nf := Scanned(field, c, j);
    var head := EmptyRows(c) + field[..j];
    assert nf == head + NonFullRows(field[j..]);
    assert |head| == c + j;
    assert nf[..c + j - 1] == head[..c + j - 1];
    assert nf[c + j..] == NonFullRows(field[j..]);
    assert head[..c + j - 1] == EmptyRows(c) + field[..j - 1];
  }

  /** Stepping past a row that is not full. */
  lemma ScanKeepStep(field: seq<seq<Cell>>, c: nat, j: nat)
    requires 0 < j <= |field| && !IsFull(field[j - 1])
    ensures Scanned(field, c, j) == Scanned(field, c, j - 1)
    ensures CountFull(field[j - 1..]) == CountFull(field[j..])
  {
    SuffixStep(field, j);
    assert field[..j] == field[..j - 1] + [field[j - 1]];
  }

  /** Once every row has been examined the scan holds the cleared field. */
  lemma ScanDone(field: seq<seq<Cell>>, c: nat, j: nat)
    requires j <= |field| && c == CountFull(field[j..])
    requires !(0 < j)
    ensures Scanned(field, c, j) == ClearedField(field)
    ensures c == CountFull(field)
  {
    assert field[..j] == [] && field[j..] == field;
  }

  /** What holds between examinations of rows in the scan of clearLines. */
  ghost predicate ScanInv(field: seq<seq<Cell>>, newField: seq<seq<Cell>>, c: nat, y: int, j: nat)
  {
    j <= |field| && c == CountFull(field[j..]) && newField == Scanned(field, c, j)
    && -1 <= y < c + j && (0 < j ==> y == c + j - 1)
  }

  /**
    One pass of the scan's loop body on row y: a full row is spliced out,
    an empty row is put on top and the same index is examined again;
    otherwise the scan moves one row up.
  */
  method ScanRow(ghost field: seq<seq<Cell>>, newField: seq<seq<Cell>>, c: nat, y: int, ghost j: nat)
    returns (newField': seq<seq<Cell>>, c': nat, y': int, ghost j': nat)
    requires ScanInv(field, newField, c, y, j) && 0 <= y
    ensures ScanInv(field, newField', c', y', j')
    ensures y' + j' < y + j
    ensures y < |newField|
    ensures IsFull(newField[y]) ==>
              newField' == [EmptyRow()] + (newField[..y] + newField[y + 1..]) && c' == c + 1 && y' == y
    ensures !IsFull(newField[y]) ==> newField' == newField && c' == c && y' == y - 1
  {
    assert y < |newField| && newField[y] == if j == 0 then EmptyRow() else field[j - 1] by {
      ScanRowAt(field, c, j, y);
    }
    if IsFull(newField[y]) {
      assert 0 < j by {
        EmptyRowNotFull();
      }
      newField' := [EmptyRow()] + (newField[..y] + newField[y + 1..]);
      c', y', j' := c + 1, y, j - 1;
      assert newField' == Scanned(field, c', j') && c' == CountFull(field[j'..]) by {
        ScanClearStep(field, c, j);
      }
    } else {
      newField', c', y' := newField, c, y - 1;
      if j > 0 {
        j' := j - 1;
        assert newField' == Scanned(field, c', j') && c' == CountFull(field[j'..]) by {
          ScanKeepStep(field, c, j);
        }
      } else {
        j' := j;
      }
    }
  }

  /**
    The scan of clearLines: rows are examined from the bottom up, and the
    result is the cleared field with the number of full rows removed.
  */
  method ScanFullRows(field: seq<seq<Cell>>) returns (newField: seq<seq<Cell>>, clearedCount: nat)
    requires |field| == Height
    ensures newField == ClearedField(field)
    ensures clearedCount == CountFull(field)
  {
    newField := field;
    clearedCount := 0;
    var y: int := Height - 1;
    ghost var j: nat := |field|;
    assert ScanInv(field, newField, clearedCount, y, j) by {
      assert field[..j] == field && field[j..] == [];
    }
    while y >= 0
      invariant ScanInv(field, newField, clearedCount, y, j)
      decreases y + j
    {
      newField, clearedCount, y, j := ScanRow(field, newField, clearedCount, y, j);
    }
    assert newField == ClearedField(field) && clearedCount == CountFull(field) by {
      ScanDone(field, clearedCount, j);
    }
  }

  // ---------------------------------------------------------------------------
  // Score, level and speed
  // ---------------------------------------------------------------------------

  /** level = floor(linesCleared / 10) + 1. */
  function LevelFor(lines: int): (level: int)
    requires lines >= 0
    ensures level >= 1
    ensures (level - 1) * LinesPerLevel <= lines < level * LinesPerLevel
  {
    lines / LinesPerLevel + 1
  }

  lemma LevelNeverDecreases(l1: int, l2: int)
    requires 0 <= l1 <= l2
    ensures LevelFor(l1) <= LevelFor(l2)
  {
  }

  /** The period of the gravity tick in milliseconds: max(100, 1000 - level * 50). */
  function TickInterval(level: int): (ms: int)
    ensures ms >= 100
    ensures level >= 18 ==> ms == 100
    ensures level == 1 ==> ms == 950
    ensures 1 <= level <= 18 ==> ms == 1000 - 50 * level
  {
    if 100 < 1000 - level * 50 then 1000 - level * 50 else 100
  }

  lemma TickIntervalNonIncreasing(l1: int, l2: int)
    requires l1 <= l2
    ensures TickInterval(l1) >= TickInterval(l2)
  {
  }

  // ---------------------------------------------------------------------------
  // The tick as a transition on values
  // ---------------------------------------------------------------------------

  /** The engine's state; over stands for the component having been unmounted. */
  datatype Game = Game(grid: seq<seq<Cell>>, piece: Option<Block>, avatar: Position,
                       score: int, level: int, lines: int, over: bool)

  /** What a tick reports; Ended carries the score passed to onGameOver. */
  datatype Event = Halted | Spawned | Fell | Landed(cleared: nat) | Ended(finalScore: int)

  ghost predicate GameInv(g: Game)
  {
    && WellFormed(g.grid)
    && (g.piece.Some? ==> PieceInside(g.piece.value))
    && AvatarInside(g.avatar)
    && g.score >= 0
    && g.lines >= 0
    && g.level == LevelFor(g.lines)
  }

  function InitialGame(): Game
  {
    Game(EmptyRows(Height), None, Position(4, 18), 0, 1, 0, false)
  }

  lemma InitialGameValid()
    ensures GameInv(InitialGame())
  {
  }

  /** The advance condition: not on the bottom row, and the cell below is empty. */
  predicate CanFall(rows: seq<seq<Cell>>, p: Block)
    requires WellFormed(rows) && PieceInside(p)
    ensures CanFall(rows, p) ==> PieceInside(p.(y := p.y + 1)) && rows[p.y + 1][p.x] == None
  {
    p.y < Height - 1 && rows[p.y + 1][p.x].None?
  }

  /** Landing writes the piece into its own cell. */
  function Place(rows: seq<seq<Cell>>, p: Block): (r: seq<seq<Cell>>)
    requires WellFormed(rows) && PieceInside(p)
    ensures WellFormed(r)
    ensures r[p.y][p.x] == Some(p)
    ensures forall i, j :: 0 <= i < Height && 0 <= j < Width && (i, j) != (p.y, p.x) ==> r[i][j] == rows[i][j]
  {
    rows[p.y := rows[p.y][p.x := Some(p)]]
  }

  /** The state change clearLines makes: nothing unless some row is full. */
  function AfterClear(g: Game): (r: Game)
    requires g.lines >= 0
    ensures r.piece == g.piece && r.avatar == g.avatar && r.over == g.over
    ensures r.lines == g.lines + CountFull(g.grid)
  {
    var k := CountFull(g.grid);
    if k > 0 then
      g.(grid := ClearedField(g.grid),
         lines := g.lines + k,
         score := g.score + k * LinePoints * g.level,
         level := LevelFor(g.lines + k))
    else g
  }

  function TouchesAvatar(p: Block, a: Position): bool
  {
    p.x == a.x && p.y == a.y
  }

  /**
    Landing: the piece is written into its cell and the falling slot empties;
    an enemy on the avatar ends the game at once, otherwise a coin on the
    avatar earns the bonus and full rows are cleared.
  */
  function LandStep(g: Game, p: Block): (r: (Game, Event))
    requires WellFormed(g.grid) && PieceInside(p) && g.lines >= 0
    ensures r.0.piece == None && r.0.avatar == g.avatar
    ensures r.1.Ended? <==> TouchesAvatar(p, g.avatar) && p.kind == Enemy
    ensures r.0.over <==> g.over || r.1.Ended?
  {
    var landed := g.(grid := Place(g.grid, p), piece := None);
    if TouchesAvatar(p, g.avatar) && p.kind == Enemy then
      (landed.(over := true), Ended(g.score))
    else
      var bonus := if TouchesAvatar(p, g.avatar) && p.kind == Coin then CoinBonus else 0;
      (AfterClear(landed.(score := g.score + bonus)), Landed(CountFull(landed.grid)))
  }

  /** One tick of the game loop: spawn, fall one row, or land. */
  function TickStep(g: Game, choice: nat): (r: (Game, Event))
    requires GameInv(g) && choice < |Kinds|
    ensures r.0.avatar == g.avatar
    ensures r.1 == Halted <==> g.over
    ensures r.0.over <==> g.over || r.1.Ended?
  {
    if g.over then (g, Halted)
    else match g.piece
      case None => (g.(piece := Some(NewPiece(choice))), Spawned)
      case Some(p) =>
        if CanFall(g.grid, p) then (g.(piece := Some(p.(y := p.y + 1))), Fell)
        else LandStep(g, p)
  }

  lemma AfterClearValid(g: Game)
    requires GameInv(g)
    ensures GameInv(AfterClear(g))
    ensures AfterClear(g).score >= g.score
    ensures AfterClear(g).lines == g.lines + CountFull(g.grid)
    ensures AfterClear(g).score == g.score + CountFull(g.grid) * LinePoints * g.level
  {
    var k := CountFull(g.grid);
    if k > 0 {
      ClearedFieldShape(g.grid);
      assert k * LinePoints * g.level >= 0 by {
        assert k * LinePoints >= 0;
      }
    }
  }

  lemma LandValid(g: Game, p: Block)
    requires GameInv(g) && PieceInside(p)
    ensures GameInv(LandStep(g, p).0)
    ensures LandStep(g, p).0.score >= g.score && LandStep(g, p).0.lines >= g.lines
  {
    var landed := g.(grid := Place(g.grid, p), piece := None);
    var bonus := if TouchesAvatar(p, g.avatar) && p.kind == Coin then CoinBonus else 0;
    AfterClearValid(landed.(score := g.score + bonus));
  }

  /** A tick keeps the grid 20 x 10, the avatar inside, and level tied to lines. */
  lemma TickKeepsInvariant(g: Game, choice: nat)
    requires GameInv(g) && choice < |Kinds|
    ensures GameInv(TickStep(g, choice).0)
  {
    if !g.over && g.piece.Some? && !CanFall(g.grid, g.piece.value) {
      LandValid(g, g.piece.value);
    }
  }

  /** The score never decreases, and neither do the cleared lines and the level. */
  lemma TickMonotone(g: Game, choice: nat)
    requires GameInv(g) && choice < |Kinds|
    ensures TickStep(g, choice).0.score >= g.score
    ensures TickStep(g, choice).0.lines >= g.lines
    ensures TickStep(g, choice).0.level >= g.level
  {
    if !g.over && g.piece.Some? && !CanFall(g.grid, g.piece.value) {
      LandValid(g, g.piece.value);
    }
  }

  /** After game over a tick changes nothing. */
  lemma TickAfterGameOver(g: Game, choice: nat)
    requires GameInv(g) && choice < |Kinds| && g.over
    ensures TickStep(g, choice) == (g, Halted)
  {
  }

  /** With no falling piece a tick spawns one and changes nothing else. */
  lemma TickSpawns(g: Game, choice: nat)
    requires GameInv(g) && choice < |Kinds| && !g.over && g.piece.None?
    ensures TickStep(g, choice).1 == Spawned
    ensures TickStep(g, choice).0.piece == Some(NewPiece(choice))
    ensures TickStep(g, choice).0.(piece := None) == g
  {
  }

  /**
    A piece that can fall moves down exactly one row and nothing else changes:
    in particular, passing the avatar mid-fall has no effect.
  */
  lemma TickFalls(g: Game, choice: nat, p: Block)
    requires GameInv(g) && choice < |Kinds| && !g.over && g.piece == Some(p)
    requires p.y < Height - 1 && g.grid[p.y + 1][p.x] == None
    ensures TickStep(g, choice).1 == Fell
    ensures TickStep(g, choice).0.piece == Some(Block(p.x, p.y + 1, p.color, p.kind))
    ensures TickStep(g, choice).0.(piece := g.piece) == g
  {
  }

  /**
    A piece that cannot fall lands: the falling slot empties and, unless an
    enemy hits the avatar, the grid with the piece written in is cleared.
    A landing that completes no row leaves the piece in its cell.
  */
  lemma TickLands(g: Game, choice: nat, p: Block)
    requires GameInv(g) && choice < |Kinds| && !g.over && g.piece == Some(p)
    requires p.y == Height - 1 || g.grid[p.y + 1][p.x].Some?
    requires !(TouchesAvatar(p, g.avatar) && p.kind == Enemy)
    ensures TickStep(g, choice).0.piece == None
    ensures TickStep(g, choice).1 == Landed(CountFull(Place(g.grid, p)))
    ensures TickStep(g, choice).0.grid == ClearedField(Place(g.grid, p))
    ensures CountFull(Place(g.grid, p)) == 0 ==> TickStep(g, choice).0.grid[p.y][p.x] == Some(p)
    ensures TickStep(g, choice).0.avatar == g.avatar && !TickStep(g, choice).0.over
    ensures TickStep(g, choice).0.lines == g.lines + CountFull(Place(g.grid, p))
    ensures TickStep(g, choice).0.level == TickStep(g, choice).0.lines / LinesPerLevel + 1
  {
    var landed := g.(grid := Place(g.grid, p), piece := None);
    if CountFull(landed.grid) == 0 {
      NoFullRowUnchanged(landed.grid);
      assert ClearedField(landed.grid) == [] + landed.grid;
    }
  }


  /**
    Score on landing: a coin on the avatar adds exactly CoinBonus, each
    cleared row adds LinePoints times the level held before the tick.
  */
  lemma TickScores(g: Game, choice: nat, p: Block)
    requires GameInv(g) && choice < |Kinds| && !g.over && g.piece == Some(p)
    requires p.y == Height - 1 || g.grid[p.y + 1][p.x].Some?
    requires !(TouchesAvatar(p, g.avatar) && p.kind == Enemy)
    ensures TickStep(g, choice).0.score
            == g.score + (if TouchesAvatar(p, g.avatar) && p.kind == Coin then CoinBonus else 0)
               + CountFull(Place(g.grid, p)) * LinePoints * g.level
  {
  }

  /**
    An enemy landing on the avatar ends the game with the score held before
    the tick; the enemy is written into the grid and no row is cleared.
  */
  lemma TickEnemyEndsGame(g: Game, choice: nat, p: Block)
    requires GameInv(g) && choice < |Kinds| && !g.over && g.piece == Some(p)
    requires p.y == Height - 1 || g.grid[p.y + 1][p.x].Some?
    requires TouchesAvatar(p, g.avatar) && p.kind == Enemy
    ensures TickStep(g, choice).1 == Ended(g.score)
    ensures TickStep(g, choice).0.over
    ensures TickStep(g, choice).0.piece == None
    ensures TickStep(g, choice).0.grid == Place(g.grid, p)
    ensures TickStep(g, choice).0.(grid := g.grid, piece := g.piece, over := false) == g
  {
  }

  /** Every occupied cell, and the falling piece if any, is in the spawn column. */
  ghost predicate OnlySpawnColumn(g: Game)
    requires WellFormed(g.grid)
  {
    && (forall i, j :: 0 <= i < Height && 0 <= j < Width && g.grid[i][j].Some? ==> j == Width / 2)
    && (g.piece.Some? ==> g.piece.value.x == Width / 2)
  }

  lemma {:induction false} NoFullRowWithEmptyColumn(rows: seq<seq<Cell>>)
    requires WellFormed(rows) && forall i :: 0 <= i < Height ==> rows[i][0] == None
    ensures CountFull(rows) == 0
  {
    forall i | 0 <= i < |rows|
      ensures !IsFull(rows[i])
    {
      assert rows[i][0] == None;
    }
    NoFullRowUnchanged(rows);
  }

  /**
    Pieces spawn in column 5 and only ever move down, so from the initial
    state on nothing but column 5 fills: no row is ever full, no line is
    ever cleared, and the lines and the level never change.
  */
  lemma TickStaysInSpawnColumn(g: Game, choice: nat)
    requires GameInv(g) && choice < |Kinds| && OnlySpawnColumn(g)
    ensures GameInv(TickStep(g, choice).0) && OnlySpawnColumn(TickStep(g, choice).0)
    ensures TickStep(g, choice).0.lines == g.lines && TickStep(g, choice).0.level == g.level
    ensures TickStep(g, choice).1.Landed? ==> TickStep(g, choice).1.cleared == 0
  {
    TickKeepsInvariant(g, choice);
    if !g.over && g.piece.Some? && !CanFall(g.grid, g.piece.value) {
      var p := g.piece.value;
      var placed: seq<seq<Cell>> := Place(g.grid, p);
      assert forall i: int, j: int :: 0 <= i < Height && 0 <= j < Width && placed[i][j].Some? ==> j == Width / 2;
      NoFullRowWithEmptyColumn(placed);
    }
  }

  lemma InitialGameOnlySpawnColumn()
    ensures OnlySpawnColumn(InitialGame())
  {
  }

  // ---------------------------------------------------------------------------
  // The component state
  // ---------------------------------------------------------------------------

  class Engine {
    var grid: seq<seq<Cell>>
    var piece: Option<Block>
    var avatar: Position
    var score: int
    var level: int
    var linesCleared: int
    var gameOver: bool
    /** Jump restorations scheduled with setTimeout that have not yet run. */
    var pendingRestores: nat

    function State(): Game
      reads this
    {
      Game(grid, piece, avatar, score, level, linesCleared, gameOver)
    }

    ghost predicate Valid()
      reads this
    {
      GameInv(State())
    }

    constructor ()
      ensures Valid()
      ensures State() == InitialGame() && pendingRestores == 0
    {
      InitialGameValid();
      grid := EmptyRows(Height);
      piece := None;
      avatar := Position(4, 18);
      score := 0;
      level := 1;
      linesCleared := 0;
      gameOver := false;
      pendingRestores := 0;
    }

    /** moveMario; a jump also schedules one restoration. */
    method Move(dir: Direction)
      requires Valid()
      modifies this
      ensures Valid()
      ensures old(gameOver) ==> State() == old(State()) && pendingRestores == old(pendingRestores)
      ensures !old(gameOver) ==> State() == old(State()).(avatar := Moved(old(avatar), dir))
      ensures !old(gameOver) ==> pendingRestores == old(pendingRestores) + (if dir == Jump then 1 else 0)
    {
      if gameOver {
        return;
      }
      match dir {
        case Left =>
          if avatar.x > 0 {
            avatar := avatar.(x := avatar.x - 1);
          }
        case Right =>
          if avatar.x < Width - 1 {
            avatar := avatar.(x := avatar.x + 1);
          }
        case Jump =>
          if avatar.y > 0 {
            avatar := avatar.(y := avatar.y - 2);
          }
          pendingRestores := pendingRestores + 1;
      }
    }

    /** The setTimeout callback of a jump; after unmounting it changes nothing. */
    method RestoreAfterJump()
      requires Valid() && pendingRestores > 0
      modifies this
      ensures Valid()
      ensures pendingRestores == old(pendingRestores) - 1
      ensures old(gameOver) ==> State() == old(State())
      ensures !old(gameOver) ==> State() == old(State()).(avatar := Restored(old(avatar)))
    {
      pendingRestores := pendingRestores - 1;
      if !gameOver {
        var y := avatar.y + 2;
        if Height - 2 < y {
          y := Height - 2;
        }
        avatar := avatar.(y := y);
      }
    }

    /** clearLines: scan a copy of the grid, and update the counters if rows went. */
    method ClearLines() returns (clearedCount: nat)
      requires Valid()
      modifies this
      ensures clearedCount == CountFull(old(grid))
      ensures State() == AfterClear(old(State()))
      ensures Valid()
      ensures pendingRestores == old(pendingRestores)
    {
      AfterClearValid(State());
      var newField;
      newField, clearedCount := ScanFullRows(grid);
      if clearedCount > 0 {
        var oldLevel := level;
        grid := newField;
        linesCleared := linesCleared + clearedCount;
        score := score + clearedCount * LinePoints * oldLevel;
        level := (linesCleared) / LinesPerLevel + 1;
      }
    }

    /** The landing branch of the tick. */
    method Land(p: Block) returns (event: Event)
      requires Valid() && !gameOver && piece == Some(p)
      modifies this
      ensures (State(), event) == LandStep(old(State()), p)
      ensures Valid()
      ensures pendingRestores == old(pendingRestores)
    {
      ghost var g := State();
      LandValid(g, p);
      grid := Place(grid, p);
      piece := None;
      ghost var landed := State();
      assert landed == g.(grid := Place(g.grid, p), piece := None);
      if p.x == avatar.x && p.y == avatar.y {
        if p.kind == Coin {
          score := score + CoinBonus;
        } else if p.kind == Enemy {
          gameOver := true;
          assert State() == landed.(over := true);
          return Ended(score);
        }
      }
      assert State() == landed.(score := g.score + if TouchesAvatar(p, g.avatar) && p.kind == Coin then CoinBonus else 0);
      var cleared := ClearLines();
      event := Landed(cleared);
    }

    /** One run of the setInterval callback. */
    method Tick(choice: nat) returns (event: Event)
      requires Valid() && choice < |Kinds|
      modifies this
      ensures (State(), event) == TickStep(old(State()), choice)
      ensures Valid()
      ensures pendingRestores == old(pendingRestores)
    {
      if gameOver {
        return Halted;
      }
      match piece {
        case None =>
          piece := Some(NewPiece(choice));
          event := Spawned;
        case Some(p) =>
          if p.y < Height - 1 && grid[p.y + 1][p.x].None? {
            piece := Some(p.(y := p.y + 1));
            event := Fell;
          } else {
            event := Land(p);
          }
      }
    }
  }
}
