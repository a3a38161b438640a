/** The four colours of the red-black trees: the two that callers see and
    the two transient ones that deletion uses to move black weight. */
module Colors {
  import opened Wrappers

  /** 'red' | 'black' | '+black' | '-black' */
  datatype Color = Red | Black | DoubleBlack | NegativeBlack

  // ---------------------------------------------------------------------
  // addBlack and subtractBlack (red-black-tree/index.js:242-264 and
  // lib/red-black-tree/index.js:159-181, the same code twice)

  /** How many black nodes a colour counts for. */
  function Weight(c: Color): int {
    match c
    case NegativeBlack => -1
    case Red => 0
    case Black => 1
    case DoubleBlack => 2
  }

  function AddBlack(c: Color): (r: Result<Color>)
    ensures r.Ok? <==> c != DoubleBlack
    ensures r.Ok? ==> Weight(r.value) == Weight(c) + 1
  {
    match c
    case NegativeBlack => Ok(Red)
    case Red => Ok(Black)
    case Black => Ok(DoubleBlack)
    case DoubleBlack => Err("Cannot add black to +black")
  }

  function SubtractBlack(c: Color): (r: Result<Color>)
    ensures r.Ok? <==> c != NegativeBlack
    ensures r.Ok? ==> Weight(r.value) == Weight(c) - 1
  {
    match c
    case DoubleBlack => Ok(Black)
    case Black => Ok(Red)
    case Red => Ok(NegativeBlack)
    case NegativeBlack => Err("Cannot subtract black from -black")
  }

  /** The two steps undo each other wherever they are defined. */
  lemma ColorStepsInverse(c: Color)
    ensures AddBlack(c).Ok? ==> SubtractBlack(AddBlack(c).value) == Ok(c)
    ensures SubtractBlack(c).Ok? ==> AddBlack(SubtractBlack(c).value) == Ok(c)
  {
  }

  /** A color that gains one black, or plain black at the root; only a
      `+black` node below the root cannot take one more. */
  function Absorb(c: Color, isRoot: bool): (r: Result<Color>)
    ensures r.Ok? <==> isRoot || c != DoubleBlack
    ensures isRoot ==> r == Ok(Black)
    ensures !isRoot && r.Ok? ==> Weight(r.value) == Weight(c) + 1
  {
    if isRoot then Ok(Black) else AddBlack(c)
  }

  /** A color that loses one black, or plain black at the root; only a
      `-black` node below the root cannot lose one more. */
  function Demote(c: Color, isRoot: bool): (r: Result<Color>)
    ensures r.Ok? <==> isRoot || c != NegativeBlack
    ensures isRoot ==> r == Ok(Black)
    ensures !isRoot && r.Ok? ==> Weight(r.value) == Weight(c) - 1
  {
    if isRoot then Ok(Black) else SubtractBlack(c)
  }
}
