/** The hash that turns a Graph message id into a row's uid: FNV-1a, the high bit cleared. */
module GraphHash {
  import opened SnapshotRows

  const OFFSET: nat := 0xcbf2_9ce4_8422_2325
  const PRIME: nat := 0x100_0000_01b3

  function XorByte(a: nat, b: nat): nat
    requires a < 256 && b < 256
  {
    (a as bv8 ^ b as bv8) as nat
  }

  /** One byte hashed in. A byte touches the lowest eight bits. */
  function Mix(h: nat, c: char): nat {
    (h - h % 256 + XorByte(h % 256, c as nat % 256)) * PRIME % TWO64
  }

  function Hash(id: string): nat {
    if id == "" then OFFSET else Mix(Hash(id[..|id| - 1]), id[|id| - 1])
  }

  function GraphIdToUid(id: string): int {
    Hash(id) % (TWO64 / 2)
  }

  // ---- a collision, five characters at a time ----

  lemma {:induction false} HashNext(id: string, c: char)
    ensures Hash(id + [c]) == Mix(Hash(id), c)
  {
    assert (id + [c])[..|id|] == id;
  }

  lemma {:induction false} HashFive(id: string, a: char, b: char, c: char, d: char, e: char)
    ensures Hash(id + [a, b, c, d, e]) == Mix(Mix(Mix(Mix(Mix(Hash(id), a), b), c), d), e)
  {
    hide Mix, Hash;
    HashNext(id, a);
    HashNext(id + [a], b);
    HashNext(id + [a] + [b], c);
    HashNext(id + [a] + [b] + [c], d);
    HashNext(id + [a] + [b] + [c] + [d], e);
    assert id + [a] + [b] + [c] + [d] + [e] == id + [a, b, c, d, e];
  }

  /** One step computed: code is the character's, low the lowest byte, mixed the two, q what
      overflows. */
  lemma StepIs(h: nat, c: char, code: nat, low: nat, mixed: nat, q: nat, next: nat)
    requires c as nat == code < 256 && h % 256 == low && XorByte(low, code) == mixed
    requires next < TWO64 && (h - low + mixed) * PRIME == q * TWO64 + next
    ensures Mix(h, c) == next
  {
    hide XorByte;
    assert c as nat % 256 == code;
    Remainder(q, next);
  }

  lemma Remainder(q: nat, r: nat)
    requires r < TWO64
    ensures (q * TWO64 + r) % TWO64 == r
  {
  }

  lemma {:induction false} One1(id: string)
    requires Hash(id) == 0xcbf2_9ce4_8422_2325
    ensures Hash(id + ['8', 'y', 'n', '0', 'i']) == 0x9683_b139_788c_0cb7
  {
    hide Mix, Hash;
    HashFive(id, '8', 'y', 'n', '0', 'i');
    StepIs(0xcbf2_9ce4_8422_2325, '8', 56, 37, 29, 875948729822, 0xaf63_b54c_8601_aa47);
    StepIs(0xaf63_b54c_8601_aa47, 'y', 121, 71, 62, 753292103088, 0x0817_4f07_b4d4_475a);
    StepIs(0x0817_4f07_b4d4_475a, 'n', 110, 90, 52, 34750793666, 0x93e2_7e18_44b4_fd5c);
    StepIs(0x93e2_7e18_44b4_fd5c, '0', 48, 92, 108, 635160107327, 0xfed9_af3c_bf8a_9e84);
    StepIs(0xfed9_af3c_bf8a_9e84, 'i', 105, 132, 237, 1094573833840, 0x9683_b139_788c_0cb7);
  }

  lemma {:induction false} One2(id: string)
    requires Hash(id) == 0x9683_b139_788c_0cb7
    ensures Hash(id + ['Y', 'C', 'K', 'Y', 'H']) == 0x92bc_8a9a_f059_bd09
  {
    hide Mix, Hash;
    HashFive(id, 'Y', 'C', 'K', 'Y', 'H');
    StepIs(0x9683_b139_788c_0cb7, 'Y', 89, 183, 238, 646454524536, 0x4dd3_12a7_d5f9_f86a);
    StepIs(0x4dd3_12a7_d5f9_f86a, 'C', 67, 106, 41, 334253697114, 0x37a0_dc30_97c0_adab);
    StepIs(0x37a0_dc30_97c0_adab, 'K', 75, 171, 224, 238921986294, 0x4704_0691_dc67_73a0);
    StepIs(0x4704_0691_dc67_73a0, 'Y', 89, 160, 249, 305010217557, 0x134b_22d9_83ca_101b);
    StepIs(0x134b_22d9_83ca_101b, 'H', 72, 27, 83, 82864953764, 0x92bc_8a9a_f059_bd09);
  }

  lemma {:induction false} One3(id: string)
    requires Hash(id) == 0x92bc_8a9a_f059_bd09
    ensures Hash(id + ['l', 'I', 'j', '4', '-']) == 0x5e10_b4f9_1e80_5eab
  {
    hide Mix, Hash;
    HashFive(id, 'l', 'I', 'j', '4', '-');
    StepIs(0x92bc_8a9a_f059_bd09, 'l', 108, 9, 101, 630228425705, 0xb01c_ea46_687c_d29f);
    StepIs(0xb01c_ea46_687c_d29f, 'I', 73, 159, 214, 756399359891, 0xbdf4_eba3_8c1a_41a2);
    StepIs(0xbdf4_eba3_8c1a_41a2, 'j', 106, 162, 200, 815857902798, 0xe16e_2ee7_109d_c6d8);
    StepIs(0xe16e_2ee7_109d_c6d8, '4', 52, 216, 236, 968216209551, 0xac00_9ea1_3c19_0304);
    StepIs(0xac00_9ea1_3c19_0304, '-', 45, 4, 41, 738744771168, 0x5e10_b4f9_1e80_5eab);
  }

  lemma {:induction false} One4(id: string)
    requires Hash(id) == 0x5e10_b4f9_1e80_5eab
    ensures Hash(id + ['B', 'w', 'P', 'q', 'k']) == 0x4eac_0c95_5408_67e4
  {
    hide Mix, Hash;
    HashFive(id, 'B', 'w', 'P', 'q', 'k');
    StepIs(0x5e10_b4f9_1e80_5eab, 'B', 66, 171, 233, 404007221694, 0x56c2_6c4e_d421_45eb);
    StepIs(0x56c2_6c4e_d421_45eb, 'w', 119, 235, 156, 372629065575, 0x8da3_a5f2_7489_4814);
    StepIs(0x8da3_a5f2_7489_4814, 'P', 80, 20, 68, 608335950693, 0x365b_3efc_0545_cb8c);
    StepIs(0x365b_3efc_0545_cb8c, 'q', 113, 140, 253, 233459088481, 0xa2d8_033c_f599_9ee7);
    StepIs(0xa2d8_033c_f599_9ee7, 'k', 107, 231, 140, 699408793098, 0x4eac_0c95_5408_67e4);
  }

  lemma {:induction false} Other1(id: string)
    requires Hash(id) == 0xcbf2_9ce4_8422_2325
    ensures Hash(id + ['G', 'R', 'e', 'L', 'U']) == 0xa4c7_dd83_d46d_1720
  {
    hide Mix, Hash;
    HashFive(id, 'G', 'R', 'e', 'L', 'U');
    StepIs(0xcbf2_9ce4_8422_2325, 'G', 71, 37, 98, 875948729822, 0xaf63_fa4c_8602_1f86);
    StepIs(0xaf63_fa4c_8602_1f86, 'R', 82, 134, 212, 753296625072, 0x0902_2407_b59c_153c);
    StepIs(0x0902_2407_b59c_153c, 'e', 101, 60, 89, 38690621380, 0xeab8_9219_9838_463b);
    StepIs(0xeab8_9219_9838_463b, 'L', 76, 59, 119, 1008118930215, 0x0fe6_b87d_a79f_bc35);
    StepIs(0x0fe6_b87d_a79f_bc35, 'U', 85, 53, 96, 68295359938, 0xa4c7_dd83_d46d_1720);
  }

  lemma {:induction false} Other2(id: string)
    requires Hash(id) == 0xa4c7_dd83_d46d_1720
    ensures Hash(id + ['r', 'M', '4', 'w', 'M']) == 0x34db_4485_73e7_ee7f
  {
    hide Mix, Hash;
    HashFive(id, 'r', 'M', '4', 'w', 'M');
    StepIs(0xa4c7_dd83_d46d_1720, 'r', 114, 32, 82, 707727820012, 0x6cb4_b901_f55e_a056);
    StepIs(0x6cb4_b901_f55e_a056, 'M', 77, 86, 27, 466888491694, 0x15b6_7953_efca_0de1);
    StepIs(0x15b6_7953_efca_0de1, '4', 52, 225, 213, 93255717908, 0xaf1d_fea0_7455_80ef);
    StepIs(0xaf1d_fea0_7455_80ef, 'w', 119, 239, 152, 752122503581, 0xe578_42a5_ad49_8248);
    StepIs(0xe578_42a5_ad49_8248, 'M', 77, 72, 5, 985565144883, 0x34db_4485_73e7_ee7f);
  }

  lemma {:induction false} Other3(id: string)
    requires Hash(id) == 0x34db_4485_73e7_ee7f
    ensures Hash(id + ['q', 'f', 'g', '9', 'y']) == 0xcd9e_7cba_6abc_4e5b
  {
    hide Mix, Hash;
    HashFive(id, 'q', 'f', 'g', '9', 'y');
    StepIs(0x34db_4485_73e7_ee7f, 'q', 113, 127, 14, 227017000397, 0xb883_7cc3_f319_81ca);
    StepIs(0xb883_7cc3_f319_81ca, 'f', 102, 202, 172, 792479974700, 0xa0ee_acf6_1457_5744);
    StepIs(0xa0ee_acf6_1457_5744, 'g', 103, 68, 35, 691199080229, 0xcce7_0924_9069_1079);
    StepIs(0xcce7_0924_9069_1079, '9', 57, 121, 64, 880049464812, 0x95a4_c921_6286_9cc0);
    StepIs(0x95a4_c921_6286_9cc0, 'y', 121, 192, 185, 642714772064, 0xcd9e_7cba_6abc_4e5b);
  }

  lemma {:induction false} Other4(id: string)
    requires Hash(id) == 0xcd9e_7cba_6abc_4e5b
    ensures Hash(id + ['z', 'V', '3', 'K', 'Q']) == 0x4eac_0c95_5408_67e4
  {
    hide Mix, Hash;
    HashFive(id, 'z', 'V', '3', 'K', 'Q');
    StepIs(0xcd9e_7cba_6abc_4e5b, 'z', 122, 91, 33, 883127270344, 0x209c_11c3_5df8_c213);
    StepIs(0x209c_11c3_5df8_c213, 'V', 86, 19, 69, 140057363349, 0x61f4_73f8_adb2_1b3f);
    StepIs(0x61f4_73f8_adb2_1b3f, '3', 51, 63, 12, 420713068884, 0x247c_1b8f_25a3_f564);
    StepIs(0x247c_1b8f_25a3_f564, 'K', 75, 100, 47, 156701003619, 0xa2d8_033c_f599_9edd);
    StepIs(0xa2d8_033c_f599_9edd, 'Q', 81, 221, 140, 699408793098, 0x4eac_0c95_5408_67e4);
  }

  const ONE_ID := [] + ['8', 'y', 'n', '0', 'i'] + ['Y', 'C', 'K', 'Y', 'H']
    + ['l', 'I', 'j', '4', '-'] + ['B', 'w', 'P', 'q', 'k']
  const OTHER_ID := [] + ['G', 'R', 'e', 'L', 'U'] + ['r', 'M', '4', 'w', 'M']
    + ['q', 'f', 'g', '9', 'y'] + ['z', 'V', '3', 'K', 'Q']

  /** Two ids that differ, 8yn0iYCKYHlIj4-BwPqk and GReLUrM4wMqfg9yzV3KQ, have one hash. */
  lemma IdsCollide()
    ensures ONE_ID != OTHER_ID && GraphIdToUid(ONE_ID) == GraphIdToUid(OTHER_ID) == 5668919866452109284
  {
    hide Hash, Mix;
    OneHash();
    OtherHash();
    FirstsDiffer();
  }

  lemma FirstsDiffer()
    ensures ONE_ID != OTHER_ID
  {
    assert ONE_ID[0] == '8' && OTHER_ID[0] == 'G';
  }

  lemma HashOfNothing()
    ensures Hash([]) == OFFSET
  {
  }

  lemma OneHash()
    ensures Hash(ONE_ID) == 0x4eac_0c95_5408_67e4
  {
    hide Mix, Hash;
    HashOfNothing();
    One1([]);
    One2([] + ['8', 'y', 'n', '0', 'i']);
    One3([] + ['8', 'y', 'n', '0', 'i'] + ['Y', 'C', 'K', 'Y', 'H']);
    One4([] + ['8', 'y', 'n', '0', 'i'] + ['Y', 'C', 'K', 'Y', 'H'] + ['l', 'I', 'j', '4', '-']);
  }

  lemma OtherHash()
    ensures Hash(OTHER_ID) == 0x4eac_0c95_5408_67e4
  {
    hide Mix, Hash;
    HashOfNothing();
    Other1([]);
    Other2([] + ['G', 'R', 'e', 'L', 'U']);
    Other3([] + ['G', 'R', 'e', 'L', 'U'] + ['r', 'M', '4', 'w', 'M']);
    Other4([] + ['G', 'R', 'e', 'L', 'U'] + ['r', 'M', '4', 'w', 'M'] + ['q', 'f', 'g', '9', 'y']);
  }
}
