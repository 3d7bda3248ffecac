/** "Le courant passe-t-il": four wires cross three stages of three
    switches. A configuration is a 9-bit number, three bits per stage; a
    switch set to 1 lets wire j + 1 through to wire j, a switch set to 0
    lets wire j through to wire j + 1. Current enters on all four wires. */
module SwitchNetwork {
  import opened Numbers

  /** Bit j of x. */
  predicate Bit(x: bv8, j: nat)
    requires j < 8
  {
    (x >> j) & 1 == 1
  }

  /** One stage of get_current, as the source computes it on bits. */
  function Stage(current: bv8, stage: bv8): (r: bv8)
    ensures r <= 15
  {
    (((current >> 1) & stage) | ((current & !stage & 7) << 1)) & 15
  }

  /** Wire by wire: current reaches wire j when it came down wire j + 1
      through a switch set to 1, or down wire j - 1 through a switch set
      to 0. */
  lemma StageWires(current: bv8, stage: bv8, j: nat)
    requires current <= 15 && stage <= 7 && j < 4
    ensures Bit(Stage(current, stage), j) <==>
      (j < 3 && Bit(current, j + 1) && Bit(stage, j))
      || (j >= 1 && Bit(current, j - 1) && !Bit(stage, j - 1))
  {
  }

  /** The three low bits of a configuration, and the shift that follows. */
  function Low3(c: nat): bv8
  {
    (c % 8) as bv8
  }

  /** get_current as a reference: the three stages in order, from all four
      wires lit. */
  function Current(c: nat): (r: bv8)
    ensures r <= 15
  {
    Stage(Stage(Stage(15, Low3(c)), Low3(c / 8)), Low3(c / 64))
  }

  /** get_current(configuration). */
  method GetCurrent(configuration: nat) returns (current: bv8)
    ensures current == Current(configuration)
    ensures current <= 15
  {
    current := 15;
    var c := configuration;
    for k := 0 to 3
      invariant c == configuration / [1, 8, 64, 512][k]
      invariant current == [15, Stage(15, Low3(configuration)),
        Stage(Stage(15, Low3(configuration)), Low3(configuration / 8)), Current(configuration)][k]
    {
      var stage := Low3(c);
      current := Stage(current, stage);
      c := c / 8;
    }
  }

  /** Dropping multiples of 512 leaves the three stages' bits alone. */
  lemma StageBitsOf(q: nat, r: nat)
    requires r < 512
    ensures (512 * q + r) % 8 == r % 8
    ensures ((512 * q + r) / 8) % 8 == (r / 8) % 8
    ensures ((512 * q + r) / 64) % 8 == (r / 64) % 8
  {
    var a, e := r % 8, r / 8;
    var b, c := e % 8, e / 8;
    assert r == 64 * c + 8 * b + a;
    var x := 512 * q + r;
    DivModUnique(x, 8, 64 * q + 8 * c + b, a);
    DivModUnique(64 * q + 8 * c + b, 8, 8 * q + c, b);
    DivModUnique(x, 64, 8 * q + c, 8 * b + a);
    DivModUnique(r, 64, c, 8 * b + a);
    DivModUnique(8 * q + c, 8, q, c);
  }

  /** Only the low nine bits of the configuration matter. */
  lemma NineBits(c: nat)
    ensures Current(c) == Current(c % 512)
  {
    StageBitsOf(c / 512, c % 512);
  }

  /** All switches at 0 push the current to the last wire; all at 1, to
      the first. */
  lemma Extremes()
    ensures Current(0) == 8 && Current(511) == 1
  {
  }

  /** The number of configurations below k that let no current through. */
  function Blocked(k: nat): (r: nat)
    ensures r <= k
  {
    if k == 0 then 0 else Blocked(k - 1) + (if Current(k - 1) == 0 then 1 else 0)
  }

  /** main's count: it starts at 512 and loses one per blocked
      configuration. */
  method CountPassing() returns (count: int)
    ensures count + Blocked(512) == 512
    ensures 0 <= count <= 512
  {
    count := 512;
    for configuration := 0 to 512
      invariant count + Blocked(configuration) == 512
    {
      var current := GetCurrent(configuration);
      if current == 0 {
        count := count - 1;
      }
    }
  }
}
