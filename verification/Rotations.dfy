/** Rotations of a machine word, on numbers. */
module Rotations {
  import opened Arithmetic

  /** Words that are 15 high and 17 low bits, or the other way round, as numbers. */
  lemma PartsValue(high: bv15, low: bv17)
    ensures (((high as bv32) << 17) | (low as bv32)) as nat == 0x2_0000 * (high as nat) + (low as nat)
    ensures (((low as bv32) << 15) | (high as bv32)) as nat == 0x8000 * (low as nat) + (high as nat)
    ensures high as nat < 0x8000 && low as nat < 0x2_0000
  {
  }

  lemma PartsOf(x: bv32)
    ensures x >> 17 < 0x8000 && x & 0x1ffff < 0x2_0000
    ensures x == (((x >> 17) as bv15 as bv32) << 17) | ((x & 0x1ffff) as bv17 as bv32)
  {
  }

  lemma RotateRight17(x: bv32)
    ensures ((x >> 17) | (x << 15)) as nat == x as nat / 0x2_0000 + x as nat % 0x2_0000 * 0x8000
  {
    PartsOf(x);
    Swap17(x, (x >> 17) | (x << 15), (x >> 17) as bv15, (x & 0x1ffff) as bv17);
  }

  lemma Swap17(x: bv32, y: bv32, high: bv15, low: bv17)
    requires x == ((high as bv32) << 17) | (low as bv32) && y == (x >> 17) | (x << 15)
    ensures y as nat == x as nat / 0x2_0000 + x as nat % 0x2_0000 * 0x8000
  {
    Swapped17(x, y, high, low);
    Value17(x, y, high, low);
  }

  lemma Swapped17(x: bv32, y: bv32, high: bv15, low: bv17)
    requires x == ((high as bv32) << 17) | (low as bv32) && y == (x >> 17) | (x << 15)
    ensures y == ((low as bv32) << 15) | (high as bv32)
  {
  }

  lemma Value17(x: bv32, y: bv32, high: bv15, low: bv17)
    requires x == ((high as bv32) << 17) | (low as bv32) && y == ((low as bv32) << 15) | (high as bv32)
    ensures y as nat == x as nat / 0x2_0000 + x as nat % 0x2_0000 * 0x8000
  {
    PartsValue(high, low);
    DivisionUnique(x as nat, 0x2_0000, high as nat, low as nat);
  }

  lemma OtherPartsOf(x: bv32)
    ensures x >> 15 < 0x2_0000 && x & 0x7fff < 0x8000
    ensures x == (((x >> 15) as bv17 as bv32) << 15) | ((x & 0x7fff) as bv15 as bv32)
  {
  }

  lemma RotateRight15(x: bv32)
    ensures ((x >> 15) | (x << 17)) as nat == x as nat / 0x8000 + x as nat % 0x8000 * 0x2_0000
  {
    OtherPartsOf(x);
    Swap15(x, (x >> 15) | (x << 17), (x >> 15) as bv17, (x & 0x7fff) as bv15);
  }

  lemma Swap15(x: bv32, y: bv32, high: bv17, low: bv15)
    requires x == ((high as bv32) << 15) | (low as bv32) && y == (x >> 15) | (x << 17)
    ensures y as nat == x as nat / 0x8000 + x as nat % 0x8000 * 0x2_0000
  {
    Swapped15(x, y, high, low);
    Value15(x, y, high, low);
  }

  lemma Swapped15(x: bv32, y: bv32, high: bv17, low: bv15)
    requires x == ((high as bv32) << 15) | (low as bv32) && y == (x >> 15) | (x << 17)
    ensures y == ((low as bv32) << 17) | (high as bv32)
  {
  }

  lemma Value15(x: bv32, y: bv32, high: bv17, low: bv15)
    requires x == ((high as bv32) << 15) | (low as bv32) && y == ((low as bv32) << 17) | (high as bv32)
    ensures y as nat == x as nat / 0x8000 + x as nat % 0x8000 * 0x2_0000
  {
    PartsValue(low, high);
    DivisionUnique(x as nat, 0x8000, high as nat, low as nat);
  }
}
