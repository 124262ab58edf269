/** Known values of CityHash: they fix every constant, amount and load in the functions. Each is
    evaluated one function at a time. */
module CityKnown {
  import opened CityWords
  import opened CityHash

  /** The bytes 0, 1, 2 and so on, all different, so that a load in the wrong place shows. */
  function Counting(n: nat): (s: seq<Byte>)
    requires n <= 256
    ensures |s| == n && forall i :: 0 <= i < n ==> s[i] == i as Byte
  {
    seq(n, i requires 0 <= i < n => i as Byte)
  }

  // ----- CityHash64, a value for every branch -----

  lemma Hash64Of0()
    ensures CityHash64(Counting(0)) == 0x9ae16a3b2f90404f
  {
  }

  lemma Finish3()
    ensures FinishShort(0x100, 0xb) == 0x34e803dc175e241f
  {
  }

  lemma Hash64Of3()
    ensures CityHash64(Counting(3)) == 0x34e803dc175e241f
  {
    hide FinishShort;
    Finish3();
  }

  lemma Hash64Of7()
    ensures CityHash64(Counting(7)) == 0xcfabff25b05cbc4f
  {
  }

  lemma Hash13()
    ensures HashLen16(0x706050403020100, 0x3090605850484038) == 0x4a597be1bb0faf8b
  {
  }

  lemma Hash64Of13()
    ensures CityHash64(Counting(13)) == 0x465271e8b308a98e
  {
    hide HashLen16;
    Hash13();
  }

  lemma Hash25()
    ensures HashLen16(0xdddf1cfcf5c2e505, 0x4068a87c158e5593) == 0x81c5ed69f391ebd8
  {
  }

  lemma Hash64Of25()
    ensures CityHash64(Counting(25)) == 0x81c5ed69f391ebd8
  {
    hide HashLen16;
    Hash25();
  }

  lemma FirstHalf50()
    ensures HalfHash(0xdc845f9e25e276cc, 0x1f1e1d1c1b1a1918, 0xf0e0d0c0b0a0908, 0x1716151413121110) ==
            (0x21c69eda5f18a9fc, 0x4acefe6789954f31)
  {
  }

  lemma SecondHalf50()
    ensures HalfHash(0x302e2c2a28262422, 0x31302f2e2d2c2b2a, 0x21201f1e1d1c1b1a, 0x2928272625242322) ==
            (0xaba6a19c97928d88, 0x846617c9bbeda0d0)
  {
  }

  lemma Finish50()
    ensures FinishUpTo64(0x21c69eda5f18a9fc, 0x4acefe6789954f31, 0xaba6a19c97928d88, 0x846617c9bbeda0d0) ==
            0xc78a54fccd3809fc
  {
  }

  lemma Args50()
    ensures Add(Fetch64(Counting(50), 0), Mul(Add(Size(50), Fetch64(Counting(50), 34)), K0)) == 0xdc845f9e25e276cc
    ensures Add(Fetch64(Counting(50), 16), Fetch64(Counting(50), 18)) == 0x302e2c2a28262422
  {
  }

  lemma Hash64Of50()
    ensures CityHash64(Counting(50)) == 0xc78a54fccd3809fc
  {
    hide HalfHash, FinishUpTo64, Add, Mul;
    Args50();
    FirstHalf50();
    SecondHalf50();
    Finish50();
  }

  lemma Start100First()
    ensures WeakHash32(Counting(100), 36, 0x64, 0xefc8ef37e9cea727) == (0xdcd8d4d0ccc8c524, 0xfc825cc2507cc172)
  {
  }

  lemma Start100Second()
    ensures WeakHash32(Counting(100), 68, 0x894f43a673beb4ec, 0xc3a5c85c97cb3127) ==
            (0xe6a898f7c107fa2c, 0xc255476595c28c24)
  {
  }

  lemma Start100Loads()
    ensures Fetch64(Counting(100), 0) == 0x706050403020100
    ensures Xor(Fetch64(Counting(100), 84), K1) == 0xefc8ef37e9cea727
    ensures Xor(Fetch64(Counting(100), 44), K0) == 0xf097f96cb8e51c0b
  {
  }

  lemma Start100Products()
    ensures Mul(Size(100), K1) == 0x894f43a673beb4ec
    ensures Mul(ShiftMix(0xfc825cc2507cc172), K1) == 0xd1774cba1afe902
    ensures Mul(Rotate(0x4b5733c5d97060d, 39), K1) == 0x2b6070b4c5d87152
    ensures Mul(Rotate(0xefc8ef37e9cea727, 33), K1) == 0x3e413a6f62ba40a1
  {
  }

  const AT100_A: State :=
    State(0x2b6070b4c5d87152, 0x3e413a6f62ba40a1, 0xfdaf6e385a95050d,
          (0xdcd8d4d0ccc8c524, 0xfc825cc2507cc172), (0xe6a898f7c107fa2c, 0xc255476595c28c24))

  lemma Start100()
    ensures StartOver64(Counting(100)) == AT100_A
  {
    hide WeakHash32, Mul, Rotate, ShiftMix, Fetch64, Xor;
    Start100Loads();
    Start100First();
    Start100Second();
    Start100Products();
  }

  lemma Block100First()
    ensures WeakHash32(Counting(100), 0, 0x7fea9738e98aa36, 0x86401ad0d5ace588) == (0x5446edb3cad0de66, 0x25ce5f86fdb121d6)
  {
  }

  lemma Block100Second()
    ensures WeakHash32(Counting(100), 32, 0x901ec6f62346878b, 0x8debf8437c15468d) ==
            (0x5ce78bb6dfff3c3b, 0x6032bc8defa7532c)
  {
  }

  const AT100_B: State :=
    State(0xcdc97f908d83fb67, 0x8debf8437c15468d, 0x9f9781d914a4eb5c,
          (0x5446edb3cad0de66, 0x25ce5f86fdb121d6), (0x5ce78bb6dfff3c3b, 0x6032bc8defa7532c))

  lemma Block100()
    ensures Step(Counting(100), 0, AT100_A) == AT100_B
  {
    hide WeakHash32;
    Block100First();
    Block100Second();
  }

  lemma LastHashes100()
    ensures HashLen16(0x5446edb3cad0de66, 0x5ce78bb6dfff3c3b) == 0xb2233ff4fddcea1a
    ensures HashLen16(0x25ce5f86fdb121d6, 0x6032bc8defa7532c) == 0x2cf1dff5371303c2
    ensures HashLen16(0x6e1a52d04956d8e4, 0xfabb5f85c496ff29) == 0xf3541fd5381ac838
  {
  }

  lemma Finish100()
    ensures FinishOver64(AT100_B) == 0xf3541fd5381ac838
  {
    hide HashLen16;
    LastHashes100();
  }

  lemma Hash64Of100()
    ensures CityHash64(Counting(100)) == 0xf3541fd5381ac838
  {
    hide Step, Blocks, StartOver64, FinishOver64;
    Start100();
    BlocksStep(Counting(100), 0, 1, AT100_A);
    Block100();
    BlocksNone(Counting(100), 64, AT100_B);
    Finish100();
  }

  lemma Start150First()
    ensures WeakHash32(Counting(150), 86, 0x96, 0x391e3de5371075f5) == (0xa5a19d9995918e1e, 0xc9b915cbbcc0eacc)
  {
  }

  lemma Start150Second()
    ensures WeakHash32(Counting(150), 118, 0xcdf6e579ad9e0f62, 0xc3a5c85c97cb3127) ==
            (0xf4190393c3b01d6a, 0xddc2f01272c389a2)
  {
  }

  lemma Start150Loads()
    ensures Fetch64(Counting(150), 0) == 0x706050403020100
    ensures Xor(Fetch64(Counting(150), 134), K1) == 0x391e3de5371075f5
    ensures Xor(Fetch64(Counting(150), 94), K0) == 0xa6c1ab3ef6ab6e79
  {
  }

  lemma Start150Products()
    ensures Mul(Size(150), K1) == 0xcdf6e579ad9e0f62
    ensures Mul(ShiftMix(0xc9b915cbbcc0eacc), K1) == 0x269beb91fccf4c5a
    ensures Mul(Rotate(0xd4639bd4f67cbbd3, 39), K1) == 0x3fef7827f7cb7bb5
    ensures Mul(Rotate(0x391e3de5371075f5, 33), K1) == 0x1b050b739b3baab6
  {
  }

  const AT150_A: State :=
    State(0x3fef7827f7cb7bb5, 0x1b050b739b3baab6, 0xcd5d96d0f37abad3,
          (0xa5a19d9995918e1e, 0xc9b915cbbcc0eacc), (0xf4190393c3b01d6a, 0xddc2f01272c389a2))

  lemma Start150()
    ensures StartOver64(Counting(150)) == AT150_A
  {
    hide WeakHash32, Mul, Rotate, ShiftMix, Fetch64, Xor;
    Start150Loads();
    Start150First();
    Start150Second();
    Start150Products();
  }

  lemma Block150AFirst()
    ensures WeakHash32(Counting(150), 0, 0x12b97a36f9be51a4, 0x776846a4e78eccbe) == (0x5f01be7735f685d4, 0x79350283f79c30d9)
  {
  }

  lemma Block150ASecond()
    ensures WeakHash32(Counting(150), 32, 0x762843ef0f65d443, 0x2bc9226763c80471) ==
            (0x42f108afcc1e88f3, 0xa61fd79adc7de71b)
  {
  }

  const AT150_B: State :=
    State(0x986553dc9ca24aa1, 0x2bc9226763c80471, 0x834f431123deaf54,
          (0x5f01be7735f685d4, 0x79350283f79c30d9), (0x42f108afcc1e88f3, 0xa61fd79adc7de71b))

  lemma Block150A()
    ensures Step(Counting(150), 0, AT150_A) == AT150_B
  {
    hide WeakHash32;
    Block150AFirst();
    Block150ASecond();
  }

  lemma Block150BFirst()
    ensures WeakHash32(Counting(150), 64, 0xd687466ef02f137b, 0x93567ffdd95981de) ==
            (0x23d08bb02d6848ab, 0x2c8a35163bf6071e)
  {
  }

  lemma Block150BSecond()
    ensures WeakHash32(Counting(150), 96, 0x1dffeb6ebd5d0cfa, 0xdc762ffd972681c6) ==
            (0xebc9b1307b16c2aa, 0xc3f311a28bd89ca8)
  {
  }

  const AT150_C: State :=
    State(0x77e013d3e0df25df, 0xdc762ffd972681c6, 0x5065774e0d3af8eb,
          (0x23d08bb02d6848ab, 0x2c8a35163bf6071e), (0xebc9b1307b16c2aa, 0xc3f311a28bd89ca8))

  lemma Block150B()
    ensures Step(Counting(150), 64, AT150_B) == AT150_C
  {
    hide WeakHash32;
    Block150BFirst();
    Block150BSecond();
  }

  lemma LastHashes150()
    ensures HashLen16(0x23d08bb02d6848ab, 0xebc9b1307b16c2aa) == 0x714e0d747dfc64f9
    ensures HashLen16(0x2c8a35163bf6071e, 0xc3f311a28bd89ca8) == 0xeb0d5c48e1d49c87
    ensures HashLen16(0xc7834d7da2cfbfc2, 0x62ed701cc2b3c266) == 0xf8492fa49f2f7d4d
  {
  }

  lemma Finish150()
    ensures FinishOver64(AT150_C) == 0xf8492fa49f2f7d4d
  {
    hide HashLen16;
    LastHashes150();
  }

  lemma Hash64Of150()
    ensures CityHash64(Counting(150)) == 0xf8492fa49f2f7d4d
  {
    hide Step, Blocks, StartOver64, FinishOver64;
    Start150();
    BlocksStep(Counting(150), 0, 2, AT150_A);
    Block150A();
    BlocksStep(Counting(150), 64, 1, AT150_B);
    Block150B();
    BlocksNone(Counting(150), 128, AT150_C);
    Finish150();
  }

  lemma SeededHash7()
    ensures HashLen16(0xcfabff25b05cbc4e, 0x2) == 0x671a34c7f0a1096a
  {
  }

  lemma SeededHash64Of7()
    ensures CityHash64WithSeeds(Counting(7), 1, 2) == 0x671a34c7f0a1096a
  {
    hide CityHash64, HashLen16;
    Hash64Of7();
    SeededHash7();
  }

  // ----- CityHash128, a value for every branch -----

  lemma InnerHash5()
    ensures HashLen16(0x18100805, 0x4030201) == 0xb85d8257a350641c
  {
  }

  lemma Short5()
    ensures HashLen0to16(Counting(5), 0, 5) == 0xb85d8257a350641c
  {
    hide HashLen16;
    InnerHash5();
  }

  lemma MurmurHashes5()
    ensures HashLen16(0xc3a5c85c97cb3127, 0x4acea955257e03c5) == 0x8a4029389d32d101
    ensures HashLen16(0xbd4934ec0e7471b1, 0xb492b66fbe98f273) == 0x1a17cb187242b2ec
    ensures HashLen16(0x1a17cb187242b2ec, 0x8a4029389d32d101) == 0x67dcb80830ce9b6c
  {
  }

  lemma FinishMurmur5()
    ensures FinishMurmur((0xc3a5c85c97cb3127, 0xb492b66fbe98f273, 0x4acea955257e03c5, 0xbd4934ec0e7471b1)) ==
            (0x9057e220ef7063ed, 0x67dcb80830ce9b6c)
  {
    hide HashLen16;
    MurmurHashes5();
  }

  lemma Hash128Of5()
    ensures CityHash128(Counting(5)) == (0x9057e220ef7063ed, 0x67dcb80830ce9b6c)
  {
    hide HashLen0to16, FinishMurmur;
    Short5();
    FinishMurmur5();
  }

  lemma MurmurHashes12()
    ensures HashLen16(0x2cc361531e844cd4, 0x838bf2188fe8c4) == 0xe15bbeb9c47d00fa
    ensures HashLen16(0x371435982d46ed45, 0xbf98bf67b99ef777) == 0x633f3b7deacf2aa0
    ensures HashLen16(0x633f3b7deacf2aa0, 0xe15bbeb9c47d00fa) == 0x592b4e6b049b9a1a
  {
  }

  lemma FinishMurmur12()
    ensures FinishMurmur((0x2cc361531e844cd4, 0xbf98bf67b99ef777, 0x838bf2188fe8c4, 0x371435982d46ed45)) ==
            (0x826485c42eb22a5a, 0x592b4e6b049b9a1a)
  {
    hide HashLen16;
    MurmurHashes12();
  }

  lemma Hash128Of12()
    ensures CityHash128(Counting(12)) == (0x826485c42eb22a5a, 0x592b4e6b049b9a1a)
  {
    hide FinishMurmur;
    FinishMurmur12();
  }

  lemma Short20()
    ensures HashLen0to16(Counting(20), 16, 4) == 0x5c73b335615f7698
  {
  }

  lemma MurmurHashes20()
    ensures HashLen16(0xce4fd2c3539c6457, 0xc9c68d2f202b1530) == 0x57fcc8d65980d1ed
    ensures HashLen16(0x73c7798798165ff2, 0xf0e0d0c0b0a0908) == 0x64863f7dc0d8cefe
    ensures HashLen16(0x64863f7dc0d8cefe, 0x57fcc8d65980d1ed) == 0x92ac74ca3c0794e9
  {
  }

  lemma FinishMurmur20()
    ensures FinishMurmur((0xce4fd2c3539c6457, 0xf0e0d0c0b0a0908, 0xc9c68d2f202b1530, 0x73c7798798165ff2)) ==
            (0x337af7ab99581f13, 0x92ac74ca3c0794e9)
  {
    hide HashLen16;
    MurmurHashes20();
  }

  lemma Hash128Of20()
    ensures CityHash128(Counting(20)) == (0x337af7ab99581f13, 0x92ac74ca3c0794e9)
  {
    hide HashLen0to16, FinishMurmur;
    Short20();
    FinishMurmur20();
  }

  lemma InnerHash26()
    ensures HashLen16(0x1716151413121110, 0xc7064605c5854504) == 0xcce4381f21f53a56
  {
  }

  lemma Short26()
    ensures HashLen0to16(Counting(26), 16, 10) == 0xd5fc2f0934e12944
  {
    hide HashLen16;
    InnerHash26();
  }

  lemma MurmurHashes26()
    ensures HashLen16(0xce4fd2c3539c6457, 0x434f0902f3acc7dc) == 0xe6941e2f33c23ce6
    ensures HashLen16(0x66ae7567e565e7d7, 0xf0e0d0c0b0a0908) == 0x48417fd898274aa1
    ensures HashLen16(0x48417fd898274aa1, 0xe6941e2f33c23ce6) == 0xbbaffd81c329a63a
  {
  }

  lemma FinishMurmur26()
    ensures FinishMurmur((0xce4fd2c3539c6457, 0xf0e0d0c0b0a0908, 0x434f0902f3acc7dc, 0x66ae7567e565e7d7)) ==
            (0xaed561f7abe57647, 0xbbaffd81c329a63a)
  {
    hide HashLen16;
    MurmurHashes26();
  }

  lemma Hash128Of26()
    ensures CityHash128(Counting(26)) == (0xaed561f7abe57647, 0xbbaffd81c329a63a)
  {
    hide HashLen0to16, FinishMurmur;
    Short26();
    FinishMurmur26();
  }

  lemma StartHashes50()
    ensures HashLen16(0xe5c2e59debc51d9d, 0xce4fd2c3539c6457) == 0x83d3162b3b9ddaf3
    ensures HashLen16(0xf0e0d0c0b0a092a, 0xacfb3d5160c1fe15) == 0x12850df027711d35
  {
  }

  lemma Piece50A()
    ensures MurmurBlock(Counting(50), 16, (0xe0d4e0b37b0d818c, 0xf0e0d0c0b0a0908, 0x83d3162b3b9ddaf3, 0x12850df027711d35)) ==
            (0xaef38bd0fe4a465f, 0xa1fd86dcf5404f57, 0x9dd141b3efc721b7, 0x8f544c43c8b63c82)
  {
  }

  lemma Piece50B()
    ensures MurmurBlock(Counting(50), 32, (0xaef38bd0fe4a465f, 0xa1fd86dcf5404f57, 0x9dd141b3efc721b7, 0x8f544c43c8b63c82)) ==
            (0x9dccfe35370dc7cd, 0x3c3178e9c24d889a, 0x1f81fe04bb4c2adf, 0x90d5b24773fa165d)
  {
  }

  lemma MurmurHashes50()
    ensures HashLen16(0x9dccfe35370dc7cd, 0x1f81fe04bb4c2adf) == 0xc356b77c0800a8ca
    ensures HashLen16(0x90d5b24773fa165d, 0x3c3178e9c24d889a) == 0xb0e25a01c6a94957
    ensures HashLen16(0xb0e25a01c6a94957, 0xc356b77c0800a8ca) == 0xc173f292e67fb875
  {
  }

  lemma FinishMurmur50()
    ensures FinishMurmur((0x9dccfe35370dc7cd, 0x3c3178e9c24d889a, 0x1f81fe04bb4c2adf, 0x90d5b24773fa165d)) ==
            (0x73b4ed7dcea9e19d, 0xc173f292e67fb875)
  {
    hide HashLen16;
    MurmurHashes50();
  }

  lemma Seed50()
    ensures (Xor(Fetch64(Counting(50), 0), K3), Fetch64(Counting(50), 8)) == (0xce4fd2c3539c6457, 0xf0e0d0c0b0a0908)
  {
  }

  lemma Pieces50()
    ensures MurmurBlocks(Counting(50), 16, 2, (0xe0d4e0b37b0d818c, 0xf0e0d0c0b0a0908, 0x83d3162b3b9ddaf3, 0x12850df027711d35)) ==
            (0x9dccfe35370dc7cd, 0x3c3178e9c24d889a, 0x1f81fe04bb4c2adf, 0x90d5b24773fa165d)
  {
    hide MurmurBlock, MurmurBlocks;
    MurmurBlocksStep(Counting(50), 16, 2, (0xe0d4e0b37b0d818c, 0xf0e0d0c0b0a0908, 0x83d3162b3b9ddaf3, 0x12850df027711d35));
    Piece50A();
    MurmurBlocksStep(Counting(50), 32, 1, (0xaef38bd0fe4a465f, 0xa1fd86dcf5404f57, 0x9dd141b3efc721b7, 0x8f544c43c8b63c82));
    Piece50B();
    MurmurBlocksNone(Counting(50), 48, (0x9dccfe35370dc7cd, 0x3c3178e9c24d889a, 0x1f81fe04bb4c2adf, 0x90d5b24773fa165d));
  }

  lemma Murmur50()
    ensures CityMurmur(Counting(50), 16, 34, (0xce4fd2c3539c6457, 0xf0e0d0c0b0a0908)) ==
            (0x73b4ed7dcea9e19d, 0xc173f292e67fb875)
  {
    hide HashLen16, MurmurBlocks, FinishMurmur;
    StartHashes50();
    Pieces50();
    FinishMurmur50();
  }

  lemma Hash128Of50()
    ensures CityHash128(Counting(50)) == (0x73b4ed7dcea9e19d, 0xc173f292e67fb875)
  {
    hide CityMurmur;
    Seed50();
    Murmur50();
  }

  lemma Seed200()
    ensures (Xor(Fetch64(Counting(200), 0), K3), Fetch64(Counting(200), 8)) == (0xce4fd2c3539c6457, 0xf0e0d0c0b0a0908)
  {
  }

  const AT200_A: State :=
    State(0xce4fd2c3539c6457, 0xf0e0d0c0b0a0908, 0xc9732050fdee42a8,
          (0x9a430a21a159709a, 0xd6cd477edbf4843e), (0xbab6ad170700f628, 0x1a0e0681b4614f77))

  lemma Start200()
    ensures StartOver128(Counting(200), 16, 184, (0xce4fd2c3539c6457, 0xf0e0d0c0b0a0908)) == AT200_A
  {
  }

  lemma Block200AFirst()
    ensures WeakHash32(Counting(200), 16, 0x5ec488207caa03da, 0xb3c493de65e78c7) == (0xeb4d0ca0f922784a, 0x92de4a3baa84cbe1)
  {
  }

  lemma Block200ASecond()
    ensures WeakHash32(Counting(200), 48, 0x178560c1ee44161a, 0x19a6c2ae4dc88148) ==
            (0x248e65c2eb3d0b0a, 0x1eb46adfc2d3211f)
  {
  }

  const AT200_B: State :=
    State(0xfd775a4039e2c6a3, 0x19a6c2ae4dc88148, 0x50859c26df5d829f,
          (0xeb4d0ca0f922784a, 0x92de4a3baa84cbe1), (0x248e65c2eb3d0b0a, 0x1eb46adfc2d3211f))

  lemma Block200A()
    ensures Step(Counting(200), 16, AT200_A) == AT200_B
  {
    hide WeakHash32;
    Block200AFirst();
    Block200ASecond();
  }

  lemma Block200BFirst()
    ensures WeakHash32(Counting(200), 80, 0x4adbeab82dfa4813, 0x305883851aa7c174) ==
            (0xd8657039ab73bd83, 0xc5283ab18c8b190d)
  {
  }

  lemma Block200BSecond()
    ensures WeakHash32(Counting(200), 112, 0x38e4afaa7cd91e11, 0x82dd808dc591ac26) ==
            (0x46eeb5ac7ad31401, 0x708397bdd180cf8e)
  {
  }

  const AT200_C: State :=
    State(0x1a3044caba05fcf2, 0x82dd808dc591ac26, 0xbca1dc22f6ab66a,
          (0xd8657039ab73bd83, 0xc5283ab18c8b190d), (0x46eeb5ac7ad31401, 0x708397bdd180cf8e))

  lemma Block200B()
    ensures Step(Counting(200), 80, AT200_B) == AT200_C
  {
    hide WeakHash32;
    Block200BFirst();
    Block200BSecond();
  }

  lemma Blocks200()
    ensures Blocks(Counting(200), 16, 2, AT200_A) == AT200_C
  {
    hide Step, Blocks;
    BlocksStep(Counting(200), 16, 2, AT200_A);
    Block200A();
    BlocksStep(Counting(200), 80, 1, AT200_B);
    Block200B();
    BlocksNone(Counting(200), 144, AT200_C);
  }

  const AT200_D: State :=
    State(0x376952b65c384573, 0xe3dcc3357c246ceb, 0xbca1dc22f6ab66a,
          (0xd8657039ab73bd83, 0xc5283ab18c8b190d), (0x46eeb5ac7ad31401, 0x708397bdd180cf8e))

  lemma Stir200()
    ensures StirTail(AT200_C) == AT200_D
  {
  }

  lemma Tail200AHash()
    ensures WeakHash32(Counting(200), 168, 0xd8657039ab73bd83, 0xc5283ab18c8b190d) ==
            (0xc750571c8a4e9453, 0xffa0474b995144ff)
  {
  }

  const AT200_E: State :=
    State(0x638c750dab5dfa25, 0x7a6135fe4c169a91, 0xbca1dc22f6ab66a,
          (0xc750571c8a4e9453, 0xffa0474b995144ff), (0xdf12e3a2e2018b3c, 0x708397bdd180cf8e))

  lemma Tail200A()
    ensures TailStep(Counting(200), 168, AT200_D) == AT200_E
  {
    hide WeakHash32;
    Tail200AHash();
  }

  lemma Tail200BHash()
    ensures WeakHash32(Counting(200), 136, 0xc750571c8a4e9453, 0xffa0474b995144ff) ==
            (0x35babd7ee8a8eaa3, 0x3ca70cfed49ec9b2)
  {
  }

  const AT200_F: State :=
    State(0xd563d52f617e1ffe, 0x9fdd6539cbee0f4f, 0xbca1dc22f6ab66a,
          (0x35babd7ee8a8eaa3, 0x3ca70cfed49ec9b2), (0x4601d85c07eab927, 0x708397bdd180cf8e))

  lemma Tail200B()
    ensures TailStep(Counting(200), 136, AT200_E) == AT200_F
  {
    hide WeakHash32;
    Tail200BHash();
  }

  lemma Tail200()
    ensures Tail(Counting(200), 200, 56, AT200_D) == AT200_F
  {
    hide TailStep, Tail;
    TailNext(Counting(200), 200, 56, AT200_D);
    Tail200A();
    TailNext(Counting(200), 168, 24, AT200_E);
    Tail200B();
    TailNone(Counting(200), 136, -8, AT200_F);
  }

  lemma LastHashes200()
    ensures HashLen16(0xd563d52f617e1ffe, 0x35babd7ee8a8eaa3) == 0x37c87d6fdcebfc86
    ensures HashLen16(0x9fdd6539cbee0f4f, 0x4601d85c07eab927) == 0xe668bbccacd63243
    ensures HashLen16(0x746f8a6eb18ac638, 0x708397bdd180cf8e) == 0x40eeb89cf14d84ba
    ensures HashLen16(0xa84c152dae6ccc14, 0x230fc8cb8174fbf5) == 0x5682ef01ebe7289c
  {
  }

  lemma Finish200()
    ensures FinishOver128(AT200_F) == (0x275774699e23b6fd, 0x5682ef01ebe7289c)
  {
    hide HashLen16;
    LastHashes200();
  }

  lemma Over128At200()
    ensures CityHash128WithSeed(Counting(200), 16, 184, (0xce4fd2c3539c6457, 0xf0e0d0c0b0a0908)) ==
            (0x275774699e23b6fd, 0x5682ef01ebe7289c)
  {
    hide StartOver128, Blocks, StirTail, Tail, FinishOver128;
    Start200();
    Blocks200();
    Stir200();
    Tail200();
    Finish200();
  }

  lemma Hash128Of200()
    ensures CityHash128(Counting(200)) == (0x275774699e23b6fd, 0x5682ef01ebe7289c)
  {
    hide CityHash128WithSeed;
    Seed200();
    Over128At200();
  }
}
