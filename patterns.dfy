/**
 * The threat-pattern matcher of src/board/patterns.rs: a fixed template of
 * "must hold the target colour" cells is slid along a line window, read forwards
 * and backwards, and the template's attacker/defender flags name the forced cells.
 */
module Patterns {
  import opened Wrappers
  import opened Cells

  /** One cell of a line window: its content and its board coordinates. */
  datatype AreaCell = AreaCell(v: BoardValue, x: nat, y: nat)

  /** A template: which cells must be the target colour, and which are forced. */
  datatype BoardPattern = BoardPattern(targets: seq<bool>, defForced: seq<bool>, atkForced: seq<bool>)

  /** The coin the matcher flips at each window offset before trying THREE_PATTERN. */
  type Coin = nat -> bool

  /** The three flag rows have one length, and only a cell that need not hold the
      target colour is ever forced. */
  predicate WellFormed(p: BoardPattern) {
    && |p.defForced| == |p.targets|
    && |p.atkForced| == |p.targets|
    && (forall k :: 0 <= k < |p.targets| && p.defForced[k] ==> !p.targets[k])
    && (forall k :: 0 <= k < |p.targets| && p.atkForced[k] ==> !p.targets[k])
  }

  const THREE_PATTERN: BoardPattern := BoardPattern(
    [false, false, true, true, true, false, false, false],
    [true, true, false, false, false, true, true, false],
    [false, false, false, false, false, true, false, false])
  const FOUR_PATTERN1: BoardPattern := BoardPattern(
    [false, false, true, true, true, true],
    [true, true, false, false, false, false],
    [false, true, false, false, false, false])
  const FOUR_PATTERN2: BoardPattern := BoardPattern(
    [false, true, false, true, true, true],
    [true, false, true, false, false, false],
    [false, false, true, false, false, false])
  const FOUR_PATTERN3: BoardPattern := BoardPattern(
    [false, true, true, false, true, true],
    [true, false, false, true, false, false],
    [false, false, false, true, false, false])
  const FOUR_PATTERN4: BoardPattern := BoardPattern(
    [false, true, true, true, false, true],
    [true, false, false, false, true, false],
    [false, false, false, false, true, false])
  const FOUR_PATTERN5: BoardPattern := BoardPattern(
    [false, true, true, true, true, false],
    [true, false, false, false, false, true],
    [true, false, false, false, false, true])

  /** Number of set flags. */
  function FlagCount(flags: seq<bool>): (n: nat)
    ensures n <= |flags|
  {
    if flags == [] then 0 else (if flags[0] then 1 else 0) + FlagCount(flags[1..])
  }

  /** Every template is well formed; the three templates in use force at most two
      attacker cells and at most four defender cells, and at least one defender cell. */
  lemma TablesWellFormed()
    ensures WellFormed(THREE_PATTERN) && WellFormed(FOUR_PATTERN1) && WellFormed(FOUR_PATTERN5)
    ensures FlagCount(THREE_PATTERN.atkForced) == 1 && FlagCount(THREE_PATTERN.defForced) == 4
    ensures FlagCount(FOUR_PATTERN1.atkForced) == 1 && FlagCount(FOUR_PATTERN1.defForced) == 2
    ensures FlagCount(FOUR_PATTERN5.atkForced) == 2 && FlagCount(FOUR_PATTERN5.defForced) == 2
  {
    ThreeWellFormed();
    Four1WellFormed();
    Four5WellFormed();
  }

  lemma ThreeWellFormed()
    ensures WellFormed(THREE_PATTERN)
    ensures FlagCount(THREE_PATTERN.atkForced) == 1 && FlagCount(THREE_PATTERN.defForced) == 4
  {
    ThreeFlagsDisjoint();
  }

  lemma ThreeFlagsDisjoint()
    ensures WellFormed(THREE_PATTERN)
  {
  }

  lemma Four1WellFormed()
    ensures WellFormed(FOUR_PATTERN1)
    ensures FlagCount(FOUR_PATTERN1.atkForced) == 1 && FlagCount(FOUR_PATTERN1.defForced) == 2
  {
  }

  lemma Four5WellFormed()
    ensures WellFormed(FOUR_PATTERN5)
    ensures FlagCount(FOUR_PATTERN5.atkForced) == 2 && FlagCount(FOUR_PATTERN5.defForced) == 2
  {
  }

  /** The templates that are defined but switched off are well formed too. */
  lemma DisabledTablesWellFormed()
    ensures WellFormed(FOUR_PATTERN2) && WellFormed(FOUR_PATTERN3) && WellFormed(FOUR_PATTERN4)
  {
    Four2WellFormed();
    Four3WellFormed();
    Four4WellFormed();
  }

  lemma Four2WellFormed()
    ensures WellFormed(FOUR_PATTERN2)
  {
  }

  lemma Four3WellFormed()
    ensures WellFormed(FOUR_PATTERN3)
  {
  }

  lemma Four4WellFormed()
    ensures WellFormed(FOUR_PATTERN4)
  {
  }

  function Coord(c: AreaCell): Move { Move(c.x, c.y) }

  /** The coordinates of the cells whose flag is set, in window order. */
  function Picks(cells: seq<AreaCell>, flags: seq<bool>): (r: seq<Move>)
    requires |cells| == |flags|
    ensures |r| == FlagCount(flags)
  {
    if cells == [] then []
    else (if flags[0] then [Coord(cells[0])] else []) + Picks(cells[1..], flags[1..])
  }

  /** Every picked move is the coordinate of a flagged cell. */
  lemma {:induction false} PicksFlagged(cells: seq<AreaCell>, flags: seq<bool>)
    requires |cells| == |flags|
    ensures forall m :: m in Picks(cells, flags) ==> exists k :: 0 <= k < |cells| && flags[k] && Coord(cells[k]) == m
  {
    if cells != [] {
      PicksFlagged(cells[1..], flags[1..]);
      forall m | m in Picks(cells[1..], flags[1..])
        ensures exists k :: 0 <= k < |cells| && flags[k] && Coord(cells[k]) == m
      {
        var k :| 0 <= k < |cells| - 1 && flags[1..][k] && Coord(cells[1..][k]) == m;
        assert flags[k + 1] && Coord(cells[k + 1]) == m;
      }
    }
  }

  function Reverse<T>(s: seq<T>): (r: seq<T>)
    ensures |r| == |s|
    ensures forall k :: 0 <= k < |s| ==> r[k] == s[|s| - 1 - k]
  {
    seq(|s|, k requires 0 <= k < |s| => s[|s| - 1 - k])
  }

  /** Which cells of a window hold the target colour. */
  function TargetMask(window: seq<AreaCell>, target: BoardValue): (r: seq<bool>)
    ensures |r| == |window|
    ensures forall k :: 0 <= k < |window| ==> r[k] == (window[k].v == target)
  {
    seq(|window|, k requires 0 <= k < |window| => window[k].v == target)
  }

  predicate HasValue(window: seq<AreaCell>, v: BoardValue) {
    exists k :: 0 <= k < |window| && window[k].v == v
  }

  /** The window of `pat`'s length at offset `i`, truncated at the end of the area. */
  function Window(area: seq<AreaCell>, pat: BoardPattern, i: nat): seq<AreaCell>
    requires i <= |area|
  {
    var stop := if i + |pat.targets| < |area| then i + |pat.targets| else |area|;
    area[i..stop]
  }

  /**
   * One check_pat! step: the forced lists of `pat` at offset `i`, or None when the
   * window holds an opposing stone or matches the template in neither reading.
   */
  function MatchAt(area: seq<AreaCell>, target: BoardValue, pat: BoardPattern, i: nat)
    : (r: Option<(seq<Move>, seq<Move>)>)
    requires target != Empty && WellFormed(pat) && i <= |area|
  {
    var window := Window(area, pat, i);
    var mask := TargetMask(window, target);
    if HasValue(window, Opposite(target).value) then None
    else if mask == pat.targets then Some((Picks(window, pat.atkForced), Picks(window, pat.defForced)))
    else if Reverse(mask) == pat.targets then
      var back := Reverse(window);
      Some((Picks(back, pat.atkForced), Picks(back, pat.defForced)))
    else None
  }

  /**
   * A match happens exactly when the window holds no opposing stone and its target
   * cells read as the template forwards or backwards; it needs the whole template
   * inside the area and forces as many moves as the template flags, all of them on
   * empty cells of the area, taken from the forward reading when it matches and
   * from the reversed window otherwise.
   */
  lemma MatchAtSpec(area: seq<AreaCell>, target: BoardValue, pat: BoardPattern, i: nat)
    requires target != Empty && WellFormed(pat) && i <= |area|
    ensures var r := MatchAt(area, target, pat, i);
            var window := Window(area, pat, i);
            var mask := TargetMask(window, target);
            && (r.Some? <==> !HasValue(window, Opposite(target).value) && (mask == pat.targets || Reverse(mask) == pat.targets))
            && (r.Some? && mask != pat.targets ==>
                  r.value == (Picks(Reverse(window), pat.atkForced), Picks(Reverse(window), pat.defForced)))
            && (r.Some? ==> i + |pat.targets| <= |area|)
            && (r.Some? ==> forall k :: i <= k < i + |pat.targets| ==> Some(area[k].v) != Opposite(target))
            && (r.Some? ==> |r.value.0| == FlagCount(pat.atkForced) && |r.value.1| == FlagCount(pat.defForced))
            && (r.Some? ==> forall m :: m in r.value.0 + r.value.1 ==> EmptyIn(area, m))
            && (r.Some? && TargetMask(Window(area, pat, i), target) == pat.targets ==>
                  r.value == (Picks(Window(area, pat, i), pat.atkForced), Picks(Window(area, pat, i), pat.defForced)))
  {
    var window := Window(area, pat, i);
    var mask := TargetMask(window, target);
    if !HasValue(window, Opposite(target).value) {
      if mask == pat.targets {
        PicksAreEmpty(area, i, window, pat.atkForced, pat.targets, target);
        PicksAreEmpty(area, i, window, pat.defForced, pat.targets, target);
      } else if Reverse(mask) == pat.targets {
        PicksAreEmptyReversed(area, i, window, pat.atkForced, pat.targets, target);
        PicksAreEmptyReversed(area, i, window, pat.defForced, pat.targets, target);
      }
    }
  }

  /** `m` is the coordinate of an empty cell of `area`. */
  predicate EmptyIn(area: seq<AreaCell>, m: Move) {
    exists k :: 0 <= k < |area| && area[k].v == Empty && Coord(area[k]) == m
  }

  lemma PicksAreEmpty(area: seq<AreaCell>, i: nat, window: seq<AreaCell>, flags: seq<bool>,
                      targets: seq<bool>, target: BoardValue)
    requires target != Empty && i <= |area| && |flags| == |targets|
    requires i + |window| <= |area| && window == area[i..i + |window|]
    requires !HasValue(window, Opposite(target).value)
    requires TargetMask(window, target) == targets
    requires forall k :: 0 <= k < |targets| && flags[k] ==> !targets[k]
    ensures forall m :: m in Picks(window, flags) ==> EmptyIn(area, m)
  {
    PicksFlagged(window, flags);
    forall m | m in Picks(window, flags) ensures EmptyIn(area, m) {
      var k :| 0 <= k < |window| && flags[k] && Coord(window[k]) == m;
      assert window[k] == area[i + k];
      assert window[k].v != target && window[k].v != Opposite(target).value;
      OppositeCases(target, window[k].v);
    }
  }

  lemma PicksAreEmptyReversed(area: seq<AreaCell>, i: nat, window: seq<AreaCell>, flags: seq<bool>,
                              targets: seq<bool>, target: BoardValue)
    requires target != Empty && i <= |area| && |flags| == |targets|
    requires i + |window| <= |area| && window == area[i..i + |window|]
    requires !HasValue(window, Opposite(target).value)
    requires Reverse(TargetMask(window, target)) == targets
    requires forall k :: 0 <= k < |targets| && flags[k] ==> !targets[k]
    ensures forall m :: m in Picks(Reverse(window), flags) ==> EmptyIn(area, m)
  {
    var back := Reverse(window);
    PicksFlagged(back, flags);
    forall m | m in Picks(back, flags) ensures EmptyIn(area, m) {
      var k :| 0 <= k < |back| && flags[k] && Coord(back[k]) == m;
      var j := |window| - 1 - k;
      assert back[k] == window[j];
      assert !TargetMask(window, target)[j];
      WindowCellEmpty(area, i, window, j, target);
    }
  }

  /** A cell of a window with no opposing stone that does not hold the target
      colour is an empty cell of the area. */
  lemma WindowCellEmpty(area: seq<AreaCell>, i: nat, window: seq<AreaCell>, j: nat, target: BoardValue)
    requires target != Empty && i + |window| <= |area| && window == area[i..i + |window|]
    requires j < |window| && !HasValue(window, Opposite(target).value) && window[j].v != target
    ensures EmptyIn(area, Coord(window[j]))
  {
    assert window[j] == area[i + j];
    OppositeCases(target, window[j].v);
  }

  /** A value that is neither a stone nor its opposite is Empty. */
  lemma OppositeCases(target: BoardValue, v: BoardValue)
    requires target != Empty && v != target && v != Opposite(target).value
    ensures v == Empty
  {
  }

  /** The outcome at one offset: THREE_PATTERN only when the coin says so, then
      FOUR_PATTERN1, then FOUR_PATTERN5 (the other fours are switched off). */
  function OffsetMatch(area: seq<AreaCell>, target: BoardValue, coin: Coin, i: nat)
    : (r: Option<(seq<Move>, seq<Move>)>)
    requires target != Empty && i <= |area|
  {
    TablesWellFormed();
    var three := if coin(i) then MatchAt(area, target, THREE_PATTERN, i) else None;
    if three.Some? then three
    else
      var four1 := MatchAt(area, target, FOUR_PATTERN1, i);
      if four1.Some? then four1 else MatchAt(area, target, FOUR_PATTERN5, i)
  }

  /** A match at one offset forces one or two attacker moves and one to four defender
      moves, all on empty cells of the area. */
  lemma OffsetMatchSpec(area: seq<AreaCell>, target: BoardValue, coin: Coin, i: nat)
    requires target != Empty && i <= |area|
    ensures var r := OffsetMatch(area, target, coin, i);
            && (r.Some? ==> 1 <= |r.value.0| <= 2 && 1 <= |r.value.1| <= 4)
            && (r.Some? ==> forall m :: m in r.value.0 + r.value.1 ==> EmptyIn(area, m))
  {
    TablesWellFormed();
    var three := if coin(i) then MatchAt(area, target, THREE_PATTERN, i) else None;
    if three.Some? {
      MatchAtSpec(area, target, THREE_PATTERN, i);
    } else if MatchAt(area, target, FOUR_PATTERN1, i).Some? {
      MatchAtSpec(area, target, FOUR_PATTERN1, i);
    } else {
      MatchAtSpec(area, target, FOUR_PATTERN5, i);
    }
  }

  /** get_forced from offset `i` on: the outcome of the first offset that matches. */
  function GetForcedFrom(area: seq<AreaCell>, target: BoardValue, coin: Coin, i: nat)
    : (r: (seq<Move>, seq<Move>))
    requires target != Empty && i <= |area|
    decreases |area| - i
  {
    if i == |area| then ([], [])
    else
      var here := OffsetMatch(area, target, coin, i);
      if here.Some? then here.value else GetForcedFrom(area, target, coin, i + 1)
  }

  /** At most two attacker and four defender moves, all of them empty cells of the
      area; both lists are empty exactly when no offset from i on matches. */
  lemma {:induction false} GetForcedFromSpec(area: seq<AreaCell>, target: BoardValue, coin: Coin, i: nat)
    requires target != Empty && i <= |area|
    decreases |area| - i
    ensures var r := GetForcedFrom(area, target, coin, i);
            && |r.0| <= 2 && |r.1| <= 4
            && (forall m :: m in r.0 + r.1 ==> EmptyIn(area, m))
            && (r == ([], []) <==> forall j :: i <= j < |area| ==> OffsetMatch(area, target, coin, j).None?)
  {
    if i < |area| {
      var here := OffsetMatch(area, target, coin, i);
      OffsetMatchSpec(area, target, coin, i);
      if here.None? {
        GetForcedFromSpec(area, target, coin, i + 1);
        assert GetForcedFrom(area, target, coin, i) == GetForcedFrom(area, target, coin, i + 1);
        NoneFromHere(area, target, coin, i);
      } else {
        assert GetForcedFrom(area, target, coin, i) == here.value;
        assert |here.value.1| >= 1;
        assert !(forall j :: i <= j < |area| ==> OffsetMatch(area, target, coin, j).None?);
      }
    }
  }

  lemma NoneFromHere(area: seq<AreaCell>, target: BoardValue, coin: Coin, i: nat)
    requires target != Empty && i < |area| && OffsetMatch(area, target, coin, i).None?
    ensures (forall j :: i <= j < |area| ==> OffsetMatch(area, target, coin, j).None?)
            <==> (forall j :: i + 1 <= j < |area| ==> OffsetMatch(area, target, coin, j).None?)
  {
  }

  /** The (attacker, defender) forced lists of `area` for the `target` colour. */
  function GetForcedSpec(area: seq<AreaCell>, target: BoardValue, coin: Coin): (r: (seq<Move>, seq<Move>))
    requires target != Empty
  {
    GetForcedFrom(area, target, coin, 0)
  }

  /** No later offset contributes: the result is that of the first matching offset. */
  lemma {:induction false} FirstMatchWins(area: seq<AreaCell>, target: BoardValue, coin: Coin, i: nat, j: nat)
    requires target != Empty && i <= j < |area|
    requires OffsetMatch(area, target, coin, j).Some?
    requires forall k :: i <= k < j ==> OffsetMatch(area, target, coin, k).None?
    ensures GetForcedFrom(area, target, coin, i) == OffsetMatch(area, target, coin, j).value
    decreases j - i
  {
    if i < j {
      var here := OffsetMatch(area, target, coin, i);
      assert here.None?;
      assert GetForcedFrom(area, target, coin, i) == GetForcedFrom(area, target, coin, i + 1);
      FirstMatchWins(area, target, coin, i + 1, j);
    }
  }

  /**
   * The pushes of one matched reading: the coordinates of the attacker-flagged and
   * defender-flagged cells, in the order the cells are visited.
   */
  method CollectForced(cells: seq<AreaCell>, pat: BoardPattern) returns (atk: seq<Move>, def: seq<Move>)
    requires WellFormed(pat) && |cells| == |pat.targets|
    ensures atk == Picks(cells, pat.atkForced) && def == Picks(cells, pat.defForced)
  {
    atk, def := [], [];
    for k := 0 to |cells|
      invariant atk + Picks(cells[k..], pat.atkForced[k..]) == Picks(cells, pat.atkForced)
      invariant def + Picks(cells[k..], pat.defForced[k..]) == Picks(cells, pat.defForced)
    {
      PicksStep(atk, cells, pat.atkForced, k);
      PicksStep(def, cells, pat.defForced, k);
      if pat.atkForced[k] {
        atk := atk + [Coord(cells[k])];
      }
      if pat.defForced[k] {
        def := def + [Coord(cells[k])];
      }
    }
  }

  /** One step of the collecting loop: the k-th cell is pushed when its flag is set. */
  lemma PicksStep(acc: seq<Move>, cells: seq<AreaCell>, flags: seq<bool>, k: nat)
    requires |cells| == |flags| && k < |cells|
    ensures flags[k] ==> (acc + [Coord(cells[k])]) + Picks(cells[k + 1..], flags[k + 1..])
                         == acc + Picks(cells[k..], flags[k..])
    ensures !flags[k] ==> acc + Picks(cells[k + 1..], flags[k + 1..]) == acc + Picks(cells[k..], flags[k..])
  {
    assert cells[k..][1..] == cells[k + 1..];
    assert flags[k..][1..] == flags[k + 1..];
    var rest := Picks(cells[k + 1..], flags[k + 1..]);
    if flags[k] {
      assert (acc + [Coord(cells[k])]) + rest == acc + ([Coord(cells[k])] + rest);
    } else {
      assert [] + rest == rest;
    }
  }

  /**
   * One check_pat! expansion: tests `pat` at offset `i` against the precomputed
   * target mask of the whole area, forwards first and then reversed.
   */
  method CheckPattern(area: seq<AreaCell>, targetMask: seq<bool>, target: BoardValue, pat: BoardPattern, i: nat)
    returns (found: bool, atk: seq<Move>, def: seq<Move>)
    requires target != Empty && WellFormed(pat) && i <= |area|
    requires targetMask == TargetMask(area, target)
    ensures found == MatchAt(area, target, pat, i).Some?
    ensures found ==> (atk, def) == MatchAt(area, target, pat, i).value
  {
    var len := |pat.targets|;
    var stop := if i + len < |area| then i + len else |area|;
    var areaWindow := area[i..stop];
    assert areaWindow == Window(area, pat, i);
    if !HasValue(areaWindow, Opposite(target).value) {
      var window := targetMask[i..stop];
      assert window == TargetMask(areaWindow, target);
      if window == pat.targets {
        atk, def := CollectForced(areaWindow, pat);
        return true, atk, def;
      }
      if Reverse(window) == pat.targets {
        atk, def := CollectForced(Reverse(areaWindow), pat);
        return true, atk, def;
      }
    }
    return false, [], [];
  }

  /**
   * get_forced: scans the offsets in ascending order and returns the lists of the
   * first template that matches; both lists are empty when nothing matches.
   */
  method GetForced(area: seq<AreaCell>, target: BoardValue, coin: Coin) returns (atk: seq<Move>, def: seq<Move>)
    requires target != Empty
    ensures (atk, def) == GetForcedSpec(area, target, coin)
  {
    TablesWellFormed();
    var targetMask := TargetMask(area, target);
    for i := 0 to |area|
      invariant GetForcedFrom(area, target, coin, 0) == GetForcedFrom(area, target, coin, i)
    {
      var found;
      if coin(i) {
        found, atk, def := CheckPattern(area, targetMask, target, THREE_PATTERN, i);
        if found {
          return;
        }
      }
      found, atk, def := CheckPattern(area, targetMask, target, FOUR_PATTERN1, i);
      if found {
        return;
      }
      found, atk, def := CheckPattern(area, targetMask, target, FOUR_PATTERN5, i);
      if found {
        return;
      }
      assert OffsetMatch(area, target, coin, i).None?;
    }
    return [], [];
  }

  /** The open-three window used below. */
  function OpenThreeArea(): seq<AreaCell> {
    [AreaCell(Empty, 0, 0), AreaCell(Empty, 1, 0), AreaCell(BoardValue.X, 2, 0),
     AreaCell(BoardValue.X, 3, 0), AreaCell(BoardValue.X, 4, 0), AreaCell(Empty, 5, 0),
     AreaCell(Empty, 6, 0), AreaCell(Empty, 7, 0)]
  }

  lemma OpenThreeMatches()
    ensures MatchAt(OpenThreeArea(), BoardValue.X, THREE_PATTERN, 0)
            == Some(([Move(5, 0)], [Move(0, 0), Move(1, 0), Move(5, 0), Move(6, 0)]))
  {
    var area := OpenThreeArea();
    ThreeWellFormed();
    assert Window(area, THREE_PATTERN, 0) == area;
    OpenThreeMask();
    OpenThreeAttack();
    OpenThreeDefence();
  }

  /** The open three is all X or empty, and its X cells are THREE_PATTERN's targets. */
  lemma OpenThreeMask()
    ensures TargetMask(OpenThreeArea(), BoardValue.X) == THREE_PATTERN.targets
    ensures !HasValue(OpenThreeArea(), BoardValue.O)
  {
    var area := OpenThreeArea();
    forall k | 0 <= k < 8 ensures TargetMask(area, BoardValue.X)[k] == THREE_PATTERN.targets[k] {
    }
  }

  lemma OpenThreeAttack()
    ensures Picks(OpenThreeArea(), THREE_PATTERN.atkForced) == [Move(5, 0)]
  {
  }

  lemma OpenThreeDefence()
    ensures Picks(OpenThreeArea(), THREE_PATTERN.defForced) == [Move(0, 0), Move(1, 0), Move(5, 0), Move(6, 0)]
  {
  }

  /**
   * An open three of X (two empty cells on each side and one beyond) forces the
   * defender onto both pairs of flanking cells and the attacker onto the extension
   * cell, when the coin lets THREE_PATTERN be tried.
   */
  lemma OpenThreeForcesFlanks()
    ensures GetForcedSpec(OpenThreeArea(), BoardValue.X, _ => true)
            == ([Move(5, 0)], [Move(0, 0), Move(1, 0), Move(5, 0), Move(6, 0)])
  {
    var coin: Coin := _ => true;
    OpenThreeMatches();
    assert OffsetMatch(OpenThreeArea(), BoardValue.X, coin, 0).Some?;
    FirstMatchWins(OpenThreeArea(), BoardValue.X, coin, 0, 0);
  }
}
