/** Food placement: sample random cells until one is off the snake, giving up
    after a fixed number of tries. The random generator is replaced by the
    sequence of cells it would have produced, one cell per try. */
module FoodPlacer {
  import opened Grid

  /** Tries after which the loop takes whatever it samples next. */
  const MAX_TRIES: int := 2000

  /** The samples are a stream of in-grid cells, long enough for every try. */
  predicate ValidSamples(samples: seq<Cell>, rows: int, cols: int)
  {
    |samples| > MAX_TRIES && AllInGrid(samples, rows, cols)
  }

  /** Index of the sample the retry loop settles on, searching from try `i`:
      the first sample before `MAX_TRIES` that is off the snake, or else the
      sample right after them. */
  function ChosenIndex(snake: seq<Cell>, samples: seq<Cell>, i: nat): (k: nat)
    requires i <= MAX_TRIES < |samples|
    ensures i <= k <= MAX_TRIES
    ensures forall j :: i <= j < k ==> samples[j] in snake
    ensures k < MAX_TRIES ==> samples[k] !in snake
    decreases MAX_TRIES - i
  {
    if i == MAX_TRIES || samples[i] !in snake then i
    else ChosenIndex(snake, samples, i + 1)
  }

  /** The cell the retry loop places the food on. */
  function FoodChoice(snake: seq<Cell>, samples: seq<Cell>): Cell
    requires |samples| > MAX_TRIES
  {
    samples[ChosenIndex(snake, samples, 0)]
  }

  /** The food always lands on one of the first `MAX_TRIES + 1` samples, so on an
      in-grid cell. */
  lemma FoodChoiceInGrid(snake: seq<Cell>, samples: seq<Cell>, rows: int, cols: int)
    requires ValidSamples(samples, rows, cols)
    ensures var f := FoodChoice(snake, samples);
      InGrid(f, rows, cols) && f in samples[..MAX_TRIES + 1]
  {
    var k := ChosenIndex(snake, samples, 0);
    assert samples[..MAX_TRIES + 1][k] == samples[k];
  }

  /** When one of the first `MAX_TRIES` samples is off the snake, the food lands
      on the first such sample, and so off the snake. */
  lemma FoodChoiceFirstFree(snake: seq<Cell>, samples: seq<Cell>, j: nat)
    requires MAX_TRIES < |samples|
    requires j < MAX_TRIES && samples[j] !in snake
    ensures FoodChoice(snake, samples) !in snake
    ensures exists k :: 0 <= k <= j && FoodChoice(snake, samples) == samples[k] &&
                        forall m :: 0 <= m < k ==> samples[m] in snake
  {
    var k := ChosenIndex(snake, samples, 0);
    assert k <= j;
  }

  /** When all of the first `MAX_TRIES` samples are on the snake, the food lands
      on the next sample, wherever it is. */
  lemma FoodChoiceFallback(snake: seq<Cell>, samples: seq<Cell>)
    requires MAX_TRIES < |samples|
    requires forall j :: 0 <= j < MAX_TRIES ==> samples[j] in snake
    ensures FoodChoice(snake, samples) == samples[MAX_TRIES]
  {
  }

  /** The retry loop. `tries` counts the samples it drew. */
  method PlaceFood(snake: seq<Cell>, samples: seq<Cell>) returns (food: Cell, tries: int)
    requires |samples| > MAX_TRIES
    ensures 1 <= tries <= MAX_TRIES + 1
    ensures food == samples[tries - 1]
    ensures forall j :: 0 <= j < tries - 1 ==> samples[j] in snake
    ensures tries <= MAX_TRIES ==> food !in snake
    ensures food == FoodChoice(snake, samples)
  {
    food := samples[0];
    tries := 1;
    while tries <= MAX_TRIES && food in snake
      invariant 1 <= tries <= MAX_TRIES + 1
      invariant food == samples[tries - 1]
      invariant forall j :: 0 <= j < tries - 1 ==> samples[j] in snake
      decreases MAX_TRIES + 1 - tries
    {
      food := samples[tries];
      tries := tries + 1;
    }
  }
}
