// Small boards: the edge cases of the threshold test, a delta that stays
// put (revisits), a delta listed twice, and a caller that builds the
// counter and asks it twice.

module KnightScenarios {
  import opened Knight

  const Vowels: set<string> := {"a", "e", "i", "o", "u", "y"}

  /** A one-cell board holding `symbol`, no moves, the vowels restricted. */
  function Single(symbol: string, maxRestrictedCharacters: int): Config
  {
    Config([[Some(symbol)]], [], Vowels, 0, maxRestrictedCharacters)
  }

  /** A lone vowel with a threshold of 1 is cut off at once. */
  lemma LoneVowel()
    ensures Paths(Single("a", 1)) == 0
  {
    assert Count(Single("a", 1), (0, 0), 0, 0) == 0;
  }

  /** A lone consonant with a threshold of 1 is one path of no moves. */
  lemma LoneConsonant()
    ensures Paths(Single("b", 1)) == 1
  {
    assert Count(Single("b", 1), (0, 0), 0, 0) == 1;
  }

  /** The threshold is an equality test: raising it from 0 to 1 loses the
      lone vowel's path, so the total is not monotone from 0. */
  lemma ThresholdZeroToOne()
    ensures Paths(Single("a", 0)) == 1
    ensures Paths(Single("a", 1)) == 0
  {
    assert Count(Single("a", 0), (0, 0), 0, 0) == 1;
    LoneVowel();
  }

  /** Null and empty cells, and cells past a short row, are never valid. */
  lemma InvalidCells()
    ensures !IsValidPosition([[None, Some("")], [Some("b")]], (0, 0))
    ensures !IsValidPosition([[None, Some("")], [Some("b")]], (0, 1))
    ensures !IsValidPosition([[None, Some("")], [Some("b")]], (1, 1))
    ensures !IsValidPosition([[None, Some("")], [Some("b")]], (-1, 0))
    ensures IsValidPosition([[Some("b")]], (0, 0))
  {
  }

  // ---------------------------------------------------------------------
  // A single delta that stays put: every move revisits the same cell

  /** Nothing forbids a revisit: on a valid unrestricted cell whose only
      delta is (0, 0), the search counts exactly one path, however many
      moves remain. */
  lemma {:induction false} StayPutFree(cfg: Config, position: Position, totalMoves: int, badCharacterCount: int)
    requires cfg.moveDeltas == [(0, 0)]
    requires IsValidPosition(cfg.board, position)
    requires Hit(cfg.board, cfg.restrictedCharacters, position) == 0
    requires totalMoves <= cfg.maxMoves
    requires badCharacterCount != cfg.maxRestrictedCharacters
    ensures Count(cfg, position, totalMoves, badCharacterCount) == 1
    decreases cfg.maxMoves - totalMoves
  {
    if totalMoves < cfg.maxMoves {
      assert NextPosition(position, cfg.moveDeltas[0]) == position;
      StayPutFree(cfg, position, totalMoves + 1, badCharacterCount);
      assert Branches(cfg, position, totalMoves, badCharacterCount, 1) == 1;
    }
  }

  /** Each revisit of a restricted cell counts again: staying put on one
      for the remaining moves meets it once per visit, and the path is cut
      off exactly when one of those running counts equals the threshold. */
  lemma {:induction false} StayPutRestricted(cfg: Config, position: Position, totalMoves: int, badCharacterCount: int)
    requires cfg.moveDeltas == [(0, 0)]
    requires IsValidPosition(cfg.board, position)
    requires Hit(cfg.board, cfg.restrictedCharacters, position) == 1
    requires totalMoves <= cfg.maxMoves
    ensures Count(cfg, position, totalMoves, badCharacterCount) ==
      if badCharacterCount < cfg.maxRestrictedCharacters <= badCharacterCount + (cfg.maxMoves - totalMoves) + 1 then 0 else 1
    decreases cfg.maxMoves - totalMoves
  {
    var hits := badCharacterCount + 1;
    if hits != cfg.maxRestrictedCharacters && totalMoves < cfg.maxMoves {
      assert NextPosition(position, cfg.moveDeltas[0]) == position;
      StayPutRestricted(cfg, position, totalMoves + 1, hits);
      assert IsRestrictedCharacter(cfg.board, cfg.restrictedCharacters, position);
      assert Branches(cfg, position, totalMoves, hits, 1) == Count(cfg, position, totalMoves + 1, hits);
    }
  }

  /** A delta listed twice is followed twice: each copy contributes its
      own path (nothing restricted). */
  function Doubled(): Config
  {
    Config([[Some("b"), Some("c")]], [(0, 1), (0, 1)], {}, 1, 1)
  }

  lemma DoubledFromLeft()
    ensures IsValidPosition(Doubled().board, (0, 0))
    ensures Count(Doubled(), (0, 0), 0, 0) == 2
  {
    var cfg := Doubled();
    assert IsValidPosition(cfg.board, (0, 1)) && IsValidPosition(cfg.board, (0, 0));
    assert !IsRestrictedCharacter(cfg.board, cfg.restrictedCharacters, (0, 0));
    assert NextPosition((0, 0), cfg.moveDeltas[0]) == NextPosition((0, 0), cfg.moveDeltas[1]) == (0, 1);
    assert Count(cfg, (0, 1), 1, 0) == 1;
    assert Branches(cfg, (0, 0), 0, 0, 1) == 1;
  }

  lemma DoubledFromRight()
    ensures IsValidPosition(Doubled().board, (0, 1))
    ensures Count(Doubled(), (0, 1), 0, 0) == 0
  {
    var cfg := Doubled();
    assert !IsValidPosition(cfg.board, (0, 2));
    assert !IsRestrictedCharacter(cfg.board, cfg.restrictedCharacters, (0, 1));
    BranchesStuck(cfg, (0, 1), 0, 0, 2);
  }

  lemma DoubledDelta()
    ensures Paths(Doubled()) == 2
  {
    var cfg := Doubled();
    DoubledFromLeft();
    DoubledFromRight();
    assert StartCount(cfg, (0, 0)) == 2 && StartCount(cfg, (0, 1)) == 0;
    assert RowSum(cfg, 0, 1) == 2;
    assert RowSum(cfg, 0, 2) == 2;
    assert BoardSum(cfg, 1) == 2;
  }

  /** A caller builds the counter from a configuration and asks for the
      total twice: the fields never change, so both answers agree and are
      the total of that configuration. */
  method SolveTwice(config: Config) returns (first: nat, second: nat)
    requires 0 <= config.maxMoves
    ensures first == second == Paths(config)
  {
    var counter := new YeakelRobert(config);
    first := counter.Solve();
    second := counter.Solve();
  }
}
