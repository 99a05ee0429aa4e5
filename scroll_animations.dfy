// The staggered reveal of the project cards: card `index` becomes visible
// after (index % 4) * 100 + floor(index / 4) * 50 milliseconds.

module ScrollAnimations {

  /** The delay, in milliseconds, before project card `index` is revealed. */
  function StaggerDelay(index: nat): nat
  {
    (index % 4) * 100 + (index / 4) * 50
  }

  /**
   * The grid is read four cards to a row: card (row, col) waits 100 ms per
   * column and 50 ms per row, so each row starts 50 ms after the previous
   * one and sweeps left to right in 100 ms steps.
   */
  lemma StaggerGrid(row: nat, col: nat)
    requires col < 4
    ensures StaggerDelay(4 * row + col) == 100 * col + 50 * row
    ensures col < 3 ==> StaggerDelay(4 * row + col + 1) == StaggerDelay(4 * row + col) + 100
    ensures StaggerDelay(4 * (row + 1) + col) == StaggerDelay(4 * row + col) + 50
  {
    assert (4 * row + col) % 4 == col && (4 * row + col) / 4 == row;
    assert (4 * (row + 1) + col) % 4 == col && (4 * (row + 1) + col) / 4 == row + 1;
    if col < 3 {
      assert (4 * row + col + 1) % 4 == col + 1 && (4 * row + col + 1) / 4 == row;
    }
  }
}
