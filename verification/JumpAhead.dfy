/** Where the generator hits the three seeds that __myrand maps to 0, by jump-ahead: an affine step taken twice
    is again an affine step modulo 2^32, so 24 squarings give the jumps of 1, 2, 4, ... 2^24 steps. */
module JumpAhead {
  import opened Arith
  import opened Lcg

  // quantified so that chaining these facts does not unfold Seed
  ghost predicate SeedIs(t: nat, x: nat) {
    forall k: nat {:trigger Seed(k)} :: k == t ==> Seed(k) == x
  }

  /** `steps` calls take seed x to a * x + c modulo 2^32. */
  datatype Jump = Jump(steps: nat, a: nat, c: nat)

  function Land(j: Jump, x: nat): nat {
    (j.a * x + j.c) % M
  }

  // Mentioned where Right is to be unfolded.
  ghost predicate Taken(j: Jump, t: nat, x: nat) { true }

  ghost predicate Right(j: Jump) {
    forall t: nat, x: nat {:trigger Taken(j, t, x)} ::
      Taken(j, t, x) && SeedIs(t, x) ==> SeedIs(t + j.steps, Land(j, x))
  }

  lemma SingleStep()
    ensures Right(J0)
  {
    forall t: nat, x: nat | SeedIs(t, x) ensures SeedIs(t + 1, Land(J0, x)) {
      assert Seed(t) == x;
    }
  }

  /** Twice the steps: both coefficients are reduced products. */
  lemma Square(j: Jump, j': Jump)
    requires Right(j)
    requires j' == Jump(2 * j.steps, j.a * j.a % M, (j.a * j.c + j.c) % M)
    ensures Right(j')
  {
    forall t: nat, x: nat | SeedIs(t, x) ensures SeedIs(t + j'.steps, Land(j', x)) {
      assert Taken(j, t, x);
      assert Taken(j, t + j.steps, Land(j, x));
      LandTwice(j, j', x);
    }
  }

  lemma LandTwice(j: Jump, j': Jump, x: nat)
    requires j'.a == j.a * j.a % M && j'.c == (j.a * j.c + j.c) % M
    ensures Land(j, Land(j, x)) == Land(j', x)
  {
    var aa, ac := j.a * j.a, j.a * j.c + j.c;
    ReduceFactor(j.a, j.a * x + j.c, j.c);
    Expand(j.a, j.c, x);
    ReduceFactor(x, aa, ac % M);
    ReduceFactor(1, ac, x * aa);
  }

  lemma Expand(a: nat, c: nat, x: nat)
    ensures a * (a * x + c) + c == x * (a * a) + (a * c + c)
  {
  }

  lemma ReduceFactor(p: nat, z: nat, c: nat)
    ensures (p * (z % M) + c) % M == (p * z + c) % M
  {
    assert p * z + c == p * (z % M) + c + (p * (z / M)) * M by {
      assert p * (M * (z / M) + z % M) == p * (M * (z / M)) + p * (z % M);
    }
    ModShift(p * (z % M) + c, p * (z / M), M);
  }

  lemma Go(j: Jump, t: nat, x: nat, t': nat, y: nat)
    requires Right(j) && SeedIs(t, x) && t' == t + j.steps && y == (j.a * x + j.c) % M
    ensures SeedIs(t', y)
  {
    assert Taken(j, t, x);
  }

  const J0 := Jump(1, 1664525, 1013904223)
  const J1 := Jump(2, 389569705, 1196435762)
  const J2 := Jump(4, 158984081, 2868466484)
  const J3 := Jump(8, 3934847009, 2748932008)
  const J4 := Jump(16, 2001863745, 2210837584)
  const J5 := Jump(32, 666245249, 95141024)
  const J6 := Jump(64, 667185409, 1956956480)
  const J7 := Jump(128, 2305417729, 2065617536)
  const J8 := Jump(256, 1045939201, 43164928)
  const J9 := Jump(512, 1254066177, 1585007104)
  const J10 := Jump(1024, 3451850753, 1648530432)
  const J11 := Jump(2048, 2088640513, 1506093056)
  const J12 := Jump(4096, 2096906241, 143282176)
  const J13 := Jump(8192, 167280641, 1695850496)
  const J14 := Jump(16384, 1408303105, 438910976)
  const J15 := Jump(32768, 2816606209, 1951563776)
  const J16 := Jump(65536, 1338245121, 3903127552)
  const J17 := Jump(131072, 2676490241, 3511287808)
  const J18 := Jump(262144, 1058013185, 2727608320)
  const J19 := Jump(524288, 2116026369, 1160249344)
  const J20 := Jump(1048576, 4232052737, 2320498688)
  const J21 := Jump(2097152, 4169138177, 346030080)
  const J22 := Jump(4194304, 4043309057, 692060160)
  const J23 := Jump(8388608, 3791650817, 1384120320)
  const J24 := Jump(16777216, 3288334337, 2768240640)

  ghost predicate AllRight() {
    && Right(J0) && Right(J1) && Right(J2) && Right(J3) && Right(J4) && Right(J5) && Right(J6)
    && Right(J7) && Right(J8) && Right(J9) && Right(J10) && Right(J11) && Right(J12) && Right(J13)
    && Right(J14) && Right(J15) && Right(J16) && Right(J17) && Right(J18) && Right(J19) && Right(J20)
    && Right(J21) && Right(J22) && Right(J23) && Right(J24)
  }

  lemma Jumps()
    ensures AllRight()
  {
    SingleStep();
    Square(J0, J1);
    Square(J1, J2);
    Square(J2, J3);
    Square(J3, J4);
    Square(J4, J5);
    Square(J5, J6);
    Square(J6, J7);
    Square(J7, J8);
    Square(J8, J9);
    Square(J9, J10);
    Square(J10, J11);
    Square(J11, J12);
    Square(J12, J13);
    Square(J13, J14);
    Square(J14, J15);
    Square(J15, J16);
    Square(J16, J17);
    Square(J17, J18);
    Square(J18, J19);
    Square(J19, J20);
    Square(J20, J21);
    Square(J21, J22);
    Square(J22, J23);
    Square(J23, J24);
  }

  lemma NearZero()
    ensures SeedIs(10792485, 1275068416)
  {
    Jumps();
    assert SeedIs(0, 1);
    Go(J0, 0, 1, 1, 1015568748);
    Go(J2, 1, 1015568748, 5, 217083232);
    Go(J5, 5, 217083232, 37, 2001984000);
    Go(J9, 37, 2001984000, 549, 127738880);
    Go(J10, 549, 127738880, 1573, 404731904);
    Go(J11, 1573, 404731904, 3621, 4175749120);
    Go(J13, 3621, 4175749120, 11813, 3455680512);
    Go(J15, 11813, 3455680512, 44581, 1112276992);
    Go(J18, 44581, 1112276992, 306725, 3839885312);
    Go(J21, 306725, 3839885312, 2403877, 4185915392);
    Go(J23, 2403877, 4185915392, 10792485, 1275068416);
  }

  lemma NearRandMax()
    ensures SeedIs(17987270, 4227858431)
  {
    Jumps();
    assert SeedIs(0, 1);
    Go(J1, 0, 1, 2, 1586005467);
    Go(J2, 2, 1586005467, 6, 1587069247);
    Go(J6, 6, 1587069247, 70, 3452328319);
    Go(J7, 70, 3452328319, 198, 268323327);
    Go(J9, 198, 268323327, 710, 1896352767);
    Go(J10, 710, 1896352767, 1734, 2051772415);
    Go(J12, 1734, 2051772415, 5830, 2849611775);
    Go(J13, 5830, 2849611775, 14022, 3572875263);
    Go(J14, 14022, 3572875263, 30406, 1529741311);
    Go(J17, 30406, 1529741311, 161478, 2364538879);
    Go(J20, 161478, 2364538879, 1210054, 452984831);
    Go(J24, 1210054, 452984831, 17987270, 4227858431);
  }

  lemma NearTwiceRandMax()
    ensures SeedIs(19443843, 905969662)
  {
    Jumps();
    assert SeedIs(0, 1);
    Go(J0, 0, 1, 1, 1015568748);
    Go(J1, 1, 1015568748, 3, 2165703038);
    Go(J7, 3, 2165703038, 131, 1949569022);
    Go(J12, 131, 1949569022, 4227, 1187373054);
    Go(J13, 4227, 1187373054, 12419, 2280226814);
    Go(J15, 12419, 2280226814, 45187, 2893545470);
    Go(J19, 45187, 2893545470, 569475, 4116709374);
    Go(J21, 569475, 4116709374, 2666627, 419430398);
    Go(J24, 2666627, 419430398, 19443843, 905969662);
  }
}
