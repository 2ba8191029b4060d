/** The probability estimation state machine (Table D.3 of ITU-T T.81), as
    the source stores it: one entry per state, plus a state 113 that stays put
    and stands for a fixed probability of one half. */
module AriTable {
  const LAST_STATE := 113

  type State = s: int | 0 <= s <= 113

  /** An LPS probability: positive and less than half of the interval. */
  type Probability = q: int | 1 <= q < 0x8000 witness 1

  /** The LPS probability, the next states, and whether an LPS swaps the MPS. */
  datatype Entry = Entry(qe: Probability, nextLps: State, nextMps: State, switchMps: int)

  function Aritab(state: State): Entry {
    if state < 40 then
      if state < 20 then if state < 10 then Rows0To9(state) else Rows10To19(state)
      else if state < 30 then Rows20To29(state) else Rows30To39(state)
    else if state < 80 then
      if state < 60 then if state < 50 then Rows40To49(state) else Rows50To59(state)
      else if state < 70 then Rows60To69(state) else Rows70To79(state)
    else if state < 100 then
      if state < 90 then Rows80To89(state) else Rows90To99(state)
    else if state < 110 then Rows100To109(state) else Rows110To113(state)
  }

  function Rows0To9(state: State): Entry {
    match state
    case 0 => Entry(0x5a1d, 1, 1, 1)
    case 1 => Entry(0x2586, 14, 2, 0)
    case 2 => Entry(0x1114, 16, 3, 0)
    case 3 => Entry(0x080b, 18, 4, 0)
    case 4 => Entry(0x03d8, 20, 5, 0)
    case 5 => Entry(0x01da, 23, 6, 0)
    case 6 => Entry(0x00e5, 25, 7, 0)
    case 7 => Entry(0x006f, 28, 8, 0)
    case 8 => Entry(0x0036, 30, 9, 0)
    case _ => Entry(0x001a, 33, 10, 0)
  }

  function Rows10To19(state: State): Entry {
    match state
    case 10 => Entry(0x000d, 35, 11, 0)
    case 11 => Entry(0x0006, 9, 12, 0)
    case 12 => Entry(0x0003, 10, 13, 0)
    case 13 => Entry(0x0001, 12, 13, 0)
    case 14 => Entry(0x5a7f, 15, 15, 1)
    case 15 => Entry(0x3f25, 36, 16, 0)
    case 16 => Entry(0x2cf2, 38, 17, 0)
    case 17 => Entry(0x207c, 39, 18, 0)
    case 18 => Entry(0x17b9, 40, 19, 0)
    case _ => Entry(0x1182, 42, 20, 0)
  }

  function Rows20To29(state: State): Entry {
    match state
    case 20 => Entry(0x0cef, 43, 21, 0)
    case 21 => Entry(0x09a1, 45, 22, 0)
    case 22 => Entry(0x072f, 46, 23, 0)
    case 23 => Entry(0x055c, 48, 24, 0)
    case 24 => Entry(0x0406, 49, 25, 0)
    case 25 => Entry(0x0303, 51, 26, 0)
    case 26 => Entry(0x0240, 52, 27, 0)
    case 27 => Entry(0x01b1, 54, 28, 0)
    case 28 => Entry(0x0144, 56, 29, 0)
    case _ => Entry(0x00f5, 57, 30, 0)
  }

  function Rows30To39(state: State): Entry {
    match state
    case 30 => Entry(0x00b7, 59, 31, 0)
    case 31 => Entry(0x008a, 60, 32, 0)
    case 32 => Entry(0x0068, 62, 33, 0)
    case 33 => Entry(0x004e, 63, 34, 0)
    case 34 => Entry(0x003b, 32, 35, 0)
    case 35 => Entry(0x002c, 33, 9, 0)
    case 36 => Entry(0x5ae1, 37, 37, 1)
    case 37 => Entry(0x484c, 64, 38, 0)
    case 38 => Entry(0x3a0d, 65, 39, 0)
    case _ => Entry(0x2ef1, 67, 40, 0)
  }

  function Rows40To49(state: State): Entry {
    match state
    case 40 => Entry(0x261f, 68, 41, 0)
    case 41 => Entry(0x1f33, 69, 42, 0)
    case 42 => Entry(0x19a8, 70, 43, 0)
    case 43 => Entry(0x1518, 72, 44, 0)
    case 44 => Entry(0x1177, 73, 45, 0)
    case 45 => Entry(0x0e74, 74, 46, 0)
    case 46 => Entry(0x0bfb, 75, 47, 0)
    case 47 => Entry(0x09f8, 77, 48, 0)
    case 48 => Entry(0x0861, 78, 49, 0)
    case _ => Entry(0x0706, 79, 50, 0)
  }

  function Rows50To59(state: State): Entry {
    match state
    case 50 => Entry(0x05cd, 48, 51, 0)
    case 51 => Entry(0x04de, 50, 52, 0)
    case 52 => Entry(0x040f, 50, 53, 0)
    case 53 => Entry(0x0363, 51, 54, 0)
    case 54 => Entry(0x02d4, 52, 55, 0)
    case 55 => Entry(0x025c, 53, 56, 0)
    case 56 => Entry(0x01f8, 54, 57, 0)
    case 57 => Entry(0x01a4, 55, 58, 0)
    case 58 => Entry(0x0160, 56, 59, 0)
    case _ => Entry(0x0125, 57, 60, 0)
  }

  function Rows60To69(state: State): Entry {
    match state
    case 60 => Entry(0x00f6, 58, 61, 0)
    case 61 => Entry(0x00cb, 59, 62, 0)
    case 62 => Entry(0x00ab, 61, 63, 0)
    case 63 => Entry(0x008f, 61, 32, 0)
    case 64 => Entry(0x5b12, 65, 65, 1)
    case 65 => Entry(0x4d04, 80, 66, 0)
    case 66 => Entry(0x412c, 81, 67, 0)
    case 67 => Entry(0x37d8, 82, 68, 0)
    case 68 => Entry(0x2fe8, 83, 69, 0)
    case _ => Entry(0x293c, 84, 70, 0)
  }

  function Rows70To79(state: State): Entry {
    match state
    case 70 => Entry(0x2379, 86, 71, 0)
    case 71 => Entry(0x1edf, 87, 72, 0)
    case 72 => Entry(0x1aa9, 87, 73, 0)
    case 73 => Entry(0x174e, 72, 74, 0)
    case 74 => Entry(0x1424, 72, 75, 0)
    case 75 => Entry(0x119c, 74, 76, 0)
    case 76 => Entry(0x0f6b, 74, 77, 0)
    case 77 => Entry(0x0d51, 75, 78, 0)
    case 78 => Entry(0x0bb6, 77, 79, 0)
    case _ => Entry(0x0a40, 77, 48, 0)
  }

  function Rows80To89(state: State): Entry {
    match state
    case 80 => Entry(0x5832, 80, 81, 1)
    case 81 => Entry(0x4d1c, 88, 82, 0)
    case 82 => Entry(0x438e, 89, 83, 0)
    case 83 => Entry(0x3bdd, 90, 84, 0)
    case 84 => Entry(0x34ee, 91, 85, 0)
    case 85 => Entry(0x2eae, 92, 86, 0)
    case 86 => Entry(0x299a, 93, 87, 0)
    case 87 => Entry(0x2516, 86, 71, 0)
    case 88 => Entry(0x5570, 88, 89, 1)
    case _ => Entry(0x4ca9, 95, 90, 0)
  }

  function Rows90To99(state: State): Entry {
    match state
    case 90 => Entry(0x44d9, 96, 91, 0)
    case 91 => Entry(0x3e22, 97, 92, 0)
    case 92 => Entry(0x3824, 99, 93, 0)
    case 93 => Entry(0x32b4, 99, 94, 0)
    case 94 => Entry(0x2e17, 93, 86, 0)
    case 95 => Entry(0x56a8, 95, 96, 1)
    case 96 => Entry(0x4f46, 101, 97, 0)
    case 97 => Entry(0x47e5, 102, 98, 0)
    case 98 => Entry(0x41cf, 103, 99, 0)
    case _ => Entry(0x3c3d, 104, 100, 0)
  }

  function Rows100To109(state: State): Entry {
    match state
    case 100 => Entry(0x375e, 99, 93, 0)
    case 101 => Entry(0x5231, 105, 102, 0)
    case 102 => Entry(0x4c0f, 106, 103, 0)
    case 103 => Entry(0x4639, 107, 104, 0)
    case 104 => Entry(0x415e, 103, 99, 0)
    case 105 => Entry(0x5627, 105, 106, 1)
    case 106 => Entry(0x50e7, 108, 107, 0)
    case 107 => Entry(0x4b85, 109, 103, 0)
    case 108 => Entry(0x5597, 110, 109, 0)
    case _ => Entry(0x504f, 111, 107, 0)
  }

  function Rows110To113(state: State): Entry {
    match state
    case 110 => Entry(0x5a10, 110, 111, 1)
    case 111 => Entry(0x5522, 112, 109, 0)
    case 112 => Entry(0x59eb, 112, 111, 1)
    case _ => Entry(0x5a1d, 113, 113, 0)
  }

  /** Which way the estimate moves, from every state: an MPS lowers it, unless the state stays put; an LPS
      swaps the MPS exactly where it does not raise it. */
  ghost predicate Moves(state: State) {
    var e := Aritab(state);
    && (e.nextMps == state || Aritab(e.nextMps).qe < e.qe)
    && e.switchMps == (if state != LAST_STATE && Aritab(e.nextLps).qe <= e.qe then 1 else 0)
  }

  lemma Moves0To9(state: State)
    requires state <= 9
    ensures Moves(state)
  {
  }

  lemma Moves10To19(state: State)
    requires 10 <= state <= 19
    ensures Moves(state)
  {
  }

  lemma Moves20To29(state: State)
    requires 20 <= state <= 29
    ensures Moves(state)
  {
  }

  lemma Moves30To39(state: State)
    requires 30 <= state <= 39
    ensures Moves(state)
  {
  }

  lemma Moves40To49(state: State)
    requires 40 <= state <= 49
    ensures Moves(state)
  {
  }

  lemma Moves50To59(state: State)
    requires 50 <= state <= 59
    ensures Moves(state)
  {
  }

  lemma Moves60To69(state: State)
    requires 60 <= state <= 69
    ensures Moves(state)
  {
  }

  lemma Moves70To79(state: State)
    requires 70 <= state <= 79
    ensures Moves(state)
  {
  }

  lemma Moves80To89(state: State)
    requires 80 <= state <= 89
    ensures Moves(state)
  {
  }

  lemma Moves90To99(state: State)
    requires 90 <= state <= 99
    ensures Moves(state)
  {
  }

  lemma Moves100To109(state: State)
    requires 100 <= state <= 109
    ensures Moves(state)
  {
  }

  lemma Moves110To113(state: State)
    requires state >= 110
    ensures Moves(state)
  {
  }

  lemma LastStays()
    ensures Aritab(LAST_STATE).nextLps == Aritab(LAST_STATE).nextMps == LAST_STATE
  {
  }

  lemma RowMoves(state: State)
    ensures Moves(state)
  {
    hide *;
    if state <= 9 {
      Moves0To9(state);
    } else if state <= 19 {
      Moves10To19(state);
    } else if state <= 29 {
      Moves20To29(state);
    } else if state <= 39 {
      Moves30To39(state);
    } else if state <= 49 {
      Moves40To49(state);
    } else if state <= 59 {
      Moves50To59(state);
    } else if state <= 69 {
      Moves60To69(state);
    } else if state <= 79 {
      Moves70To79(state);
    } else if state <= 89 {
      Moves80To89(state);
    } else if state <= 99 {
      Moves90To99(state);
    } else if state <= 109 {
      Moves100To109(state);
    } else {
      Moves110To113(state);
    }
  }
}
