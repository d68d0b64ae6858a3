/** A known answer: the digest of the bytes of "abc", the first test of section 8.4
    of RFC 4634. Every word of the schedule and every round is evaluated, so that
    all constants and functions of the specification take part. */
module Sha256Vector {
  import opened Types
  import opened Bits
  import opened Sha256Spec
  import opened Sha256Padding

  function Abc(): seq<byte> { [0x61, 0x62, 0x63] }

  /** The padded message, one block. */
  function Block(): (b: seq<byte>)
    ensures |b| == 64
    ensures b[0] == 0x61 && b[1] == 0x62 && b[2] == 0x63 && b[3] == 0x80 && b[63] == 0x18
    ensures forall i :: 4 <= i < 63 ==> b[i] == 0
  {
    [0x61, 0x62, 0x63, 0x80] + ZeroBytes(59) + [0x18]
  }

  // ------------------------------------------------------------- schedule

  /** Eight words of the schedule from word t on. */
  ghost predicate WordsAre(t: nat, a: bv32, b: bv32, c: bv32, d: bv32, e: bv32, f: bv32, g: bv32, h: bv32) {
    && WordIs(t, a) && WordIs(t + 1, b) && WordIs(t + 2, c) && WordIs(t + 3, d)
    && WordIs(t + 4, e) && WordIs(t + 5, f) && WordIs(t + 6, g) && WordIs(t + 7, h)
  }

  ghost predicate WordIs(t: nat, w: bv32) { Schedule(Block(), t) == w }

  lemma {:induction false} FirstWord(t: nat, a: byte, b: byte, c: byte, d: byte, w: bv32)
    requires t < 16 && BigEndian(a, b, c, d) == w
    requires Block()[4 * t] == a && Block()[4 * t + 1] == b && Block()[4 * t + 2] == c && Block()[4 * t + 3] == d
    ensures WordIs(t, w)
  {
    hide BigEndian, Block, Mix;
  }

  lemma {:induction false} MixedWord(t: nat, w2: bv32, w7: bv32, w15: bv32, w16: bv32, w: bv32)
    requires t >= 16 && WordIs(t - 2, w2) && WordIs(t - 7, w7) && WordIs(t - 15, w15) && WordIs(t - 16, w16)
    requires Mix(w2, w7, w15, w16) == w
    ensures WordIs(t, w)
  {
    hide BigEndian, Block, Mix;
  }

  /** The eight words u from the sixteen words p and q before them. */
  lemma {:induction false} NextWords(t: nat, p0: bv32, p1: bv32, p2: bv32, p3: bv32, p4: bv32, p5: bv32, p6: bv32, p7: bv32,
                                     q0: bv32, q1: bv32, q2: bv32, q3: bv32, q4: bv32, q5: bv32, q6: bv32, q7: bv32,
                                     u0: bv32, u1: bv32, u2: bv32, u3: bv32, u4: bv32, u5: bv32, u6: bv32, u7: bv32)
    requires t >= 16 && WordsAre(t - 16, p0, p1, p2, p3, p4, p5, p6, p7)
    requires WordsAre(t - 8, q0, q1, q2, q3, q4, q5, q6, q7)
    requires Mix(q6, q1, p1, p0) == u0 && Mix(q7, q2, p2, p1) == u1 && Mix(u0, q3, p3, p2) == u2
    requires Mix(u1, q4, p4, p3) == u3 && Mix(u2, q5, p5, p4) == u4 && Mix(u3, q6, p6, p5) == u5
    requires Mix(u4, q7, p7, p6) == u6 && Mix(u5, u0, q0, p7) == u7
    ensures WordsAre(t, u0, u1, u2, u3, u4, u5, u6, u7)
  {
    hide WordIs, Mix;
    MixedWord(t, q6, q1, p1, p0, u0);
    MixedWord(t + 1, q7, q2, p2, p1, u1);
    MixedWord(t + 2, u0, q3, p3, p2, u2);
    MixedWord(t + 3, u1, q4, p4, p3, u3);
    MixedWord(t + 4, u2, q5, p5, p4, u4);
    MixedWord(t + 5, u3, q6, p6, p5, u5);
    MixedWord(t + 6, u4, q7, p7, p6, u6);
    MixedWord(t + 7, u5, u0, q0, p7, u7);
  }

  lemma {:induction false} Words0()
    ensures WordsAre(0, 0x61626380, 0x00000000, 0x00000000, 0x00000000, 0x00000000, 0x00000000, 0x00000000, 0x00000000)
  {
    hide WordIs, Block;
    FirstWord(0, 0x61, 0x62, 0x63, 0x80, 0x61626380);
    forall t | 0 < t < 8 ensures WordIs(t, 0) {
      FirstWord(t, 0, 0, 0, 0, 0);
    }
  }

  lemma {:induction false} Words8()
    ensures WordsAre(8, 0x00000000, 0x00000000, 0x00000000, 0x00000000, 0x00000000, 0x00000000, 0x00000000, 0x00000018)
  {
    hide WordIs, Block;
    forall t | 8 <= t < 15 ensures WordIs(t, 0) {
      FirstWord(t, 0, 0, 0, 0, 0);
    }
    FirstWord(15, 0, 0, 0, 0x18, 0x18);
  }

  lemma {:induction false} Words16()
    ensures WordsAre(16, 0x61626380, 0x000f0000, 0x7da86405, 0x600003c6, 0x3e9d7b78, 0x0183fc00, 0x12dcbfdb, 0xe2e2c38e)
  {
    hide WordsAre;
    Words0();
    Words8();
    NextWords(16, 0x61626380, 0x00000000, 0x00000000, 0x00000000, 0x00000000, 0x00000000, 0x00000000, 0x00000000,
              0x00000000, 0x00000000, 0x00000000, 0x00000000, 0x00000000, 0x00000000, 0x00000000, 0x00000018,
              0x61626380, 0x000f0000, 0x7da86405, 0x600003c6, 0x3e9d7b78, 0x0183fc00, 0x12dcbfdb, 0xe2e2c38e);
  }

  lemma {:induction false} Words24()
    ensures WordsAre(24, 0xc8215c1a, 0xb73679a2, 0xe5bc3909, 0x32663c5b, 0x9d209d67, 0xec8726cb, 0x702138a4, 0xd3b7973b)
  {
    hide WordsAre;
    Words8();
    Words16();
    NextWords(24, 0x00000000, 0x00000000, 0x00000000, 0x00000000, 0x00000000, 0x00000000, 0x00000000, 0x00000018,
              0x61626380, 0x000f0000, 0x7da86405, 0x600003c6, 0x3e9d7b78, 0x0183fc00, 0x12dcbfdb, 0xe2e2c38e,
              0xc8215c1a, 0xb73679a2, 0xe5bc3909, 0x32663c5b, 0x9d209d67, 0xec8726cb, 0x702138a4, 0xd3b7973b);
  }

  lemma {:induction false} Words32()
    ensures WordsAre(32, 0x93f5997f, 0x3b68ba73, 0xaff4ffc1, 0xf10a5c62, 0x0a8b3996, 0x72af830a, 0x9409e33e, 0x24641522)
  {
    hide WordsAre;
    Words16();
    Words24();
    NextWords(32, 0x61626380, 0x000f0000, 0x7da86405, 0x600003c6, 0x3e9d7b78, 0x0183fc00, 0x12dcbfdb, 0xe2e2c38e,
              0xc8215c1a, 0xb73679a2, 0xe5bc3909, 0x32663c5b, 0x9d209d67, 0xec8726cb, 0x702138a4, 0xd3b7973b,
              0x93f5997f, 0x3b68ba73, 0xaff4ffc1, 0xf10a5c62, 0x0a8b3996, 0x72af830a, 0x9409e33e, 0x24641522);
  }

  lemma {:induction false} Words40()
    ensures WordsAre(40, 0x9f47bf94, 0xf0a64f5a, 0x3e246a79, 0x27333ba3, 0x0c4763f2, 0x840abf27, 0x7a290d5d, 0x065c43da)
  {
    hide WordsAre;
    Words24();
    Words32();
    NextWords(40, 0xc8215c1a, 0xb73679a2, 0xe5bc3909, 0x32663c5b, 0x9d209d67, 0xec8726cb, 0x702138a4, 0xd3b7973b,
              0x93f5997f, 0x3b68ba73, 0xaff4ffc1, 0xf10a5c62, 0x0a8b3996, 0x72af830a, 0x9409e33e, 0x24641522,
              0x9f47bf94, 0xf0a64f5a, 0x3e246a79, 0x27333ba3, 0x0c4763f2, 0x840abf27, 0x7a290d5d, 0x065c43da);
  }

  lemma {:induction false} Words48()
    ensures WordsAre(48, 0xfb3e89cb, 0xcc7617db, 0xb9e66c34, 0xa9993667, 0x84badedd, 0xc21462bc, 0x1487472c, 0xb20f7a99)
  {
    hide WordsAre;
    Words32();
    Words40();
    NextWords(48, 0x93f5997f, 0x3b68ba73, 0xaff4ffc1, 0xf10a5c62, 0x0a8b3996, 0x72af830a, 0x9409e33e, 0x24641522,
              0x9f47bf94, 0xf0a64f5a, 0x3e246a79, 0x27333ba3, 0x0c4763f2, 0x840abf27, 0x7a290d5d, 0x065c43da,
              0xfb3e89cb, 0xcc7617db, 0xb9e66c34, 0xa9993667, 0x84badedd, 0xc21462bc, 0x1487472c, 0xb20f7a99);
  }

  lemma {:induction false} Words56()
    ensures WordsAre(56, 0xef57b9cd, 0xebe6b238, 0x9fe3095e, 0x78bc8d4b, 0xa43fcf15, 0x668b2ff8, 0xeeaba2cc, 0x12b1edeb)
  {
    hide WordsAre;
    Words40();
    Words48();
    NextWords(56, 0x9f47bf94, 0xf0a64f5a, 0x3e246a79, 0x27333ba3, 0x0c4763f2, 0x840abf27, 0x7a290d5d, 0x065c43da,
              0xfb3e89cb, 0xcc7617db, 0xb9e66c34, 0xa9993667, 0x84badedd, 0xc21462bc, 0x1487472c, 0xb20f7a99,
              0xef57b9cd, 0xebe6b238, 0x9fe3095e, 0x78bc8d4b, 0xa43fcf15, 0x668b2ff8, 0xeeaba2cc, 0x12b1edeb);
  }

  // --------------------------------------------------------------- rounds

  ghost predicate After(t: nat, v: Vars) {
    t <= ROUNDS && Rounds(Load(H0()), Block(), t) == v
  }

  /** The variables after a round: two are new, the others move by one place. */
  function Next(v: Vars, a: bv32, e: bv32): Vars { Vars(a, v.a, v.b, v.c, e, v.e, v.f, v.g) }

  lemma {:induction false} Turn(t: nat, v: Vars, k: bv32, w: bv32, u: Vars)
    requires t < ROUNDS && After(t, v) && WordIs(t, w) && K(t) == k && Round(v, k, w) == u
    ensures After(t + 1, u)
  {
    hide Round, K, Schedule, H0, Block;
  }

  lemma NoRound()
    ensures After(0, Vars(0x6a09e667, 0xbb67ae85, 0x3c6ef372, 0xa54ff53a, 0x510e527f, 0x9b05688c, 0x1f83d9ab, 0x5be0cd19))
  {
  }

  lemma {:induction false} Rounds0()
    ensures After(8, Vars(0x85a07b5f, 0xe5030380, 0x2b4209f5, 0x04409a6a, 0x0c657a79, 0x9b27a401, 0x714260ad, 0x43ada245))
  {
    hide WordIs, After;
    Words0();
    NoRound();
    var v0 := Vars(0x6a09e667, 0xbb67ae85, 0x3c6ef372, 0xa54ff53a, 0x510e527f, 0x9b05688c, 0x1f83d9ab, 0x5be0cd19);
    var v1 := Next(v0, 0x5d6aebcd, 0xfa2a4622);
    Turn(0, v0, 0x428a2f98, 0x61626380, v1);
    var v2 := Next(v1, 0x5a6ad9ad, 0x78ce7989);
    Turn(1, v1, 0x71374491, 0x00000000, v2);
    var v3 := Next(v2, 0xc8c347a7, 0xf92939eb);
    Turn(2, v2, 0xb5c0fbcf, 0x00000000, v3);
    var v4 := Next(v3, 0xd550f666, 0x24e00850);
    Turn(3, v3, 0xe9b5dba5, 0x00000000, v4);
    var v5 := Next(v4, 0x04409a6a, 0x43ada245);
    Turn(4, v4, 0x3956c25b, 0x00000000, v5);
    var v6 := Next(v5, 0x2b4209f5, 0x714260ad);
    Turn(5, v5, 0x59f111f1, 0x00000000, v6);
    var v7 := Next(v6, 0xe5030380, 0x9b27a401);
    Turn(6, v6, 0x923f82a4, 0x00000000, v7);
    var v8 := Next(v7, 0x85a07b5f, 0x0c657a79);
    Turn(7, v7, 0xab1c5ed5, 0x00000000, v8);
  }

  lemma {:induction false} Rounds8()
    ensures After(16, Vars(0xb0fa238e, 0xc0645fde, 0xd932eb16, 0x87912990, 0x07590dcd, 0x0b92f20c, 0x745a48de, 0x1e578218))
  {
    hide WordIs, After;
    Words8();
    Rounds0();
    var v8 := Vars(0x85a07b5f, 0xe5030380, 0x2b4209f5, 0x04409a6a, 0x0c657a79, 0x9b27a401, 0x714260ad, 0x43ada245);
    var v9 := Next(v8, 0x8e04ecb9, 0x32ca2d8c);
    Turn(8, v8, 0xd807aa98, 0x00000000, v9);
    var v10 := Next(v9, 0x8c87346b, 0x1cc92596);
    Turn(9, v9, 0x12835b01, 0x00000000, v10);
    var v11 := Next(v10, 0x4798a3f4, 0x436b23e8);
    Turn(10, v10, 0x243185be, 0x00000000, v11);
    var v12 := Next(v11, 0xf71fc5a9, 0x816fd6e9);
    Turn(11, v11, 0x550c7dc3, 0x00000000, v12);
    var v13 := Next(v12, 0x87912990, 0x1e578218);
    Turn(12, v12, 0x72be5d74, 0x00000000, v13);
    var v14 := Next(v13, 0xd932eb16, 0x745a48de);
    Turn(13, v13, 0x80deb1fe, 0x00000000, v14);
    var v15 := Next(v14, 0xc0645fde, 0x0b92f20c);
    Turn(14, v14, 0x9bdc06a7, 0x00000000, v15);
    var v16 := Next(v15, 0xb0fa238e, 0x07590dcd);
    Turn(15, v15, 0xc19bf174, 0x00000018, v16);
  }

  lemma {:induction false} Rounds16()
    ensures After(24, Vars(0xc5d53d8d, 0xa7a3623f, 0xc2606d6d, 0x9dc68b63, 0xaa47c347, 0x49f5114a, 0xe1257970, 0x8ada8930))
  {
    hide WordIs, After;
    Words16();
    Rounds8();
    var v16 := Vars(0xb0fa238e, 0xc0645fde, 0xd932eb16, 0x87912990, 0x07590dcd, 0x0b92f20c, 0x745a48de, 0x1e578218);
    var v17 := Next(v16, 0x21da9a9b, 0x8034229c);
    Turn(16, v16, 0xe49b69c1, 0x61626380, v17);
    var v18 := Next(v17, 0xc2fbd9d1, 0x846ee454);
    Turn(17, v17, 0xefbe4786, 0x000f0000, v18);
    var v19 := Next(v18, 0xfe777bbf, 0xcc899961);
    Turn(18, v18, 0x0fc19dc6, 0x7da86405, v19);
    var v20 := Next(v19, 0xe1f20c33, 0xb0638179);
    Turn(19, v19, 0x240ca1cc, 0x600003c6, v20);
    var v21 := Next(v20, 0x9dc68b63, 0x8ada8930);
    Turn(20, v20, 0x2de92c6f, 0x3e9d7b78, v21);
    var v22 := Next(v21, 0xc2606d6d, 0xe1257970);
    Turn(21, v21, 0x4a7484aa, 0x0183fc00, v22);
    var v23 := Next(v22, 0xa7a3623f, 0x49f5114a);
    Turn(22, v22, 0x5cb0a9dc, 0x12dcbfdb, v23);
    var v24 := Next(v23, 0xc5d53d8d, 0xaa47c347);
    Turn(23, v23, 0x76f988da, 0xe2e2c38e, v24);
  }

  lemma {:induction false} Rounds24()
    ensures After(32, Vars(0x73b33bf5, 0xea992a22, 0xa0060b30, 0x363482c9, 0xba591112, 0x0109ab3a, 0xade79437, 0x6112a3b7))
  {
    hide WordIs, After;
    Words24();
    Rounds16();
    var v24 := Vars(0xc5d53d8d, 0xa7a3623f, 0xc2606d6d, 0x9dc68b63, 0xaa47c347, 0x49f5114a, 0xe1257970, 0x8ada8930);
    var v25 := Next(v24, 0x1c2c2838, 0x2823ef91);
    Turn(24, v24, 0x983e5152, 0xc8215c1a, v25);
    var v26 := Next(v25, 0xcde8037d, 0x14383d8e);
    Turn(25, v25, 0xa831c66d, 0xb73679a2, v26);
    var v27 := Next(v26, 0xb62ec4bc, 0xc74c6516);
    Turn(26, v26, 0xb00327c8, 0xe5bc3909, v27);
    var v28 := Next(v27, 0x77d37528, 0xedffbff8);
    Turn(27, v27, 0xbf597fc7, 0x32663c5b, v28);
    var v29 := Next(v28, 0x363482c9, 0x6112a3b7);
    Turn(28, v28, 0xc6e00bf3, 0x9d209d67, v29);
    var v30 := Next(v29, 0xa0060b30, 0xade79437);
    Turn(29, v29, 0xd5a79147, 0xec8726cb, v30);
    var v31 := Next(v30, 0xea992a22, 0x0109ab3a);
    Turn(30, v30, 0x06ca6351, 0x702138a4, v31);
    var v32 := Next(v31, 0x73b33bf5, 0xba591112);
    Turn(31, v31, 0x14292967, 0xd3b7973b, v32);
  }

  lemma {:induction false} Rounds32()
    ensures After(40, Vars(0x79ea687a, 0x6dc57a8a, 0x34df1604, 0x41a65cb1, 0x1efbc0a0, 0xf0781bc8, 0xa507a53d, 0x0772a26b))
  {
    hide WordIs, After;
    Words32();
    Rounds24();
    var v32 := Vars(0x73b33bf5, 0xea992a22, 0xa0060b30, 0x363482c9, 0xba591112, 0x0109ab3a, 0xade79437, 0x6112a3b7);
    var v33 := Next(v32, 0x98e12507, 0x9cd9f5f6);
    Turn(32, v32, 0x27b70a85, 0x93f5997f, v33);
    var v34 := Next(v33, 0xfe604df5, 0x59249dd3);
    Turn(33, v33, 0x2e1b2138, 0x3b68ba73, v34);
    var v35 := Next(v34, 0xa9a7738c, 0x085f3833);
    Turn(34, v34, 0x4d2c6dfc, 0xaff4ffc1, v35);
    var v36 := Next(v35, 0x65a0cfe4, 0xf4b002d6);
    Turn(35, v35, 0x53380d13, 0xf10a5c62, v36);
    var v37 := Next(v36, 0x41a65cb1, 0x0772a26b);
    Turn(36, v36, 0x650a7354, 0x0a8b3996, v37);
    var v38 := Next(v37, 0x34df1604, 0xa507a53d);
    Turn(37, v37, 0x766a0abb, 0x72af830a, v38);
    var v39 := Next(v38, 0x6dc57a8a, 0xf0781bc8);
    Turn(38, v38, 0x81c2c92e, 0x9409e33e, v39);
    var v40 := Next(v39, 0x79ea687a, 0x1efbc0a0);
    Turn(39, v39, 0x92722c85, 0x24641522, v40);
  }

  lemma {:induction false} Rounds40()
    ensures After(48, Vars(0x4172328d, 0xa14c14b0, 0x72ab4b91, 0x26628815, 0xfecf0bc6, 0xd57b94a9, 0xb7755da1, 0xa80f11f0))
  {
    hide WordIs, After;
    Words40();
    Rounds32();
    var v40 := Vars(0x79ea687a, 0x6dc57a8a, 0x34df1604, 0x41a65cb1, 0x1efbc0a0, 0xf0781bc8, 0xa507a53d, 0x0772a26b);
    var v41 := Next(v40, 0xd6670766, 0x26352d63);
    Turn(40, v40, 0xa2bfe8a1, 0x9f47bf94, v41);
    var v42 := Next(v41, 0xdf46652f, 0x838b2711);
    Turn(41, v41, 0xa81a664b, 0xf0a64f5a, v42);
    var v43 := Next(v42, 0x17aa0dfe, 0xdecd4715);
    Turn(42, v42, 0xc24b8b70, 0x3e246a79, v43);
    var v44 := Next(v43, 0x9d4baf93, 0xfda24c2e);
    Turn(43, v43, 0xc76c51a3, 0x27333ba3, v44);
    var v45 := Next(v44, 0x26628815, 0xa80f11f0);
    Turn(44, v44, 0xd192e819, 0x0c4763f2, v45);
    var v46 := Next(v45, 0x72ab4b91, 0xb7755da1);
    Turn(45, v45, 0xd6990624, 0x840abf27, v46);
    var v47 := Next(v46, 0xa14c14b0, 0xd57b94a9);
    Turn(46, v46, 0xf40e3585, 0x7a290d5d, v47);
    var v48 := Next(v47, 0x4172328d, 0xfecf0bc6);
    Turn(47, v47, 0x106aa070, 0x065c43da, v48);
  }

  lemma {:induction false} Rounds48()
    ensures After(56, Vars(0x38cc9913, 0x3ec45cdb, 0xf5702fdb, 0x101fd28f, 0x54cb266b, 0xe50e1b4f, 0x9f4787c3, 0x529e7d00))
  {
    hide WordIs, After;
    Words48();
    Rounds40();
    var v48 := Vars(0x4172328d, 0xa14c14b0, 0x72ab4b91, 0x26628815, 0xfecf0bc6, 0xd57b94a9, 0xb7755da1, 0xa80f11f0);
    var v49 := Next(v48, 0x05757ceb, 0xbd714038);
    Turn(48, v48, 0x19a4c116, 0xfb3e89cb, v49);
    var v50 := Next(v49, 0xf11bfaa8, 0x6e5c390c);
    Turn(49, v49, 0x1e376c08, 0xcc7617db, v50);
    var v51 := Next(v50, 0x7a0508a1, 0x52f1ccf7);
    Turn(50, v50, 0x2748774c, 0xb9e66c34, v51);
    var v52 := Next(v51, 0x886e7a22, 0x49231c1e);
    Turn(51, v51, 0x34b0bcb5, 0xa9993667, v52);
    var v53 := Next(v52, 0x101fd28f, 0x529e7d00);
    Turn(52, v52, 0x391c0cb3, 0x84badedd, v53);
    var v54 := Next(v53, 0xf5702fdb, 0x9f4787c3);
    Turn(53, v53, 0x4ed8aa4a, 0xc21462bc, v54);
    var v55 := Next(v54, 0x3ec45cdb, 0xe50e1b4f);
    Turn(54, v54, 0x5b9cca4f, 0x1487472c, v55);
    var v56 := Next(v55, 0x38cc9913, 0x54cb266b);
    Turn(55, v55, 0x682e6ff3, 0xb20f7a99, v56);
  }

  lemma {:induction false} Rounds56()
    ensures After(64, Vars(0x506e3058, 0xd39a2165, 0x04d24d6c, 0xb85e2ce9, 0x5ef50f24, 0xfb121210, 0x948d25b6, 0x961f4894))
  {
    hide WordIs, After;
    Words56();
    Rounds48();
    var v56 := Vars(0x38cc9913, 0x3ec45cdb, 0xf5702fdb, 0x101fd28f, 0x54cb266b, 0xe50e1b4f, 0x9f4787c3, 0x529e7d00);
    var v57 := Next(v56, 0xfcd1887b, 0x9b5e906c);
    Turn(56, v56, 0x748f82ee, 0xef57b9cd, v57);
    var v58 := Next(v57, 0xc062d46f, 0x7e44008e);
    Turn(57, v57, 0x78a5636f, 0xebe6b238, v58);
    var v59 := Next(v58, 0xffb70472, 0x6d83bfc6);
    Turn(58, v58, 0x84c87814, 0x9fe3095e, v59);
    var v60 := Next(v59, 0xb6ae8fff, 0xb21bad3d);
    Turn(59, v59, 0x8cc70208, 0x78bc8d4b, v60);
    var v61 := Next(v60, 0xb85e2ce9, 0x961f4894);
    Turn(60, v60, 0x90befffa, 0xa43fcf15, v61);
    var v62 := Next(v61, 0x04d24d6c, 0x948d25b6);
    Turn(61, v61, 0xa4506ceb, 0x668b2ff8, v62);
    var v63 := Next(v62, 0xd39a2165, 0xfb121210);
    Turn(62, v62, 0xbef9a3f7, 0xeeaba2cc, v63);
    var v64 := Next(v63, 0x506e3058, 0x5ef50f24);
    Turn(63, v63, 0xc67178f2, 0x12b1edeb, v64);
  }

  // --------------------------------------------------------------- digest

  /** The hash value of the padded message. */
  function Hashed(): (h: seq<bv32>)
    ensures |h| == 8
  {
    [0xba7816bf, 0x8f01cfea, 0x414140de, 0x5dae2223,
     0xb00361a3, 0x96177a9c, 0xb410ff61, 0xf20015ad]
  }

  lemma {:induction false} BlockHashed()
    ensures Absorb(Block()) == Hashed()
  {
    hide Rounds, Block;
    Rounds56();
    Added();
    assert Block()[..0] == [] && Block()[0..] == Block();
  }

  lemma {:induction false} Added()
    requires After(ROUNDS, Vars(0x506e3058, 0xd39a2165, 0x04d24d6c, 0xb85e2ce9, 0x5ef50f24, 0xfb121210, 0x948d25b6, 0x961f4894))
    ensures Compress(H0(), Block()) == Hashed()
  {
    hide Rounds, Block;
  }

  lemma {:induction false} AbcPadded()
    ensures PaddedBytes(BytesBits(Abc())) == Block()
  {
    hide PaddedBytes, BytesBits, PadByte, ByteBits, LengthBytes;
    PadIsBytes(Abc(), 0, 0);
    assert BytesBits(Abc()) + ByteBits(0)[..0] == BytesBits(Abc());
    PadMark();
    LengthOfAbc();
    assert PadBytes(Abc(), 0x80, 24) == Block();
  }

  lemma PadMark()
    ensures PadByte(0, 0) == 0x80
  {
  }

  lemma {:induction false} ShiftedOut(k: nat)
    requires k >= 8
    ensures Shr(24, k) == 0
    decreases k
  {
    hide Pow2;
    ShrIsDiv(24, k);
    Pow2Monotone(8, k);
    Pow2Values();
  }

  lemma {:induction false} LengthOfAbc()
    ensures LengthBytes(24) == ZeroBytes(7) + [0x18]
  {
    hide Shr;
    forall j | 0 <= j < 7 ensures Shr(24, 56 - 8 * j) == 0 {
      ShiftedOut(56 - 8 * j);
    }
    ShrStep(24, 0);
  }

  lemma FourBytes(h: seq<bv32>, i: nat, w: bv32, a: byte, b: byte, c: byte, d: byte)
    requires |h| == 8 && i < 8 && h[i] == w
    requires LowByte(w, 24) == a && LowByte(w, 16) == b && LowByte(w, 8) == c && LowByte(w, 0) == d
    ensures Digest(h)[4 * i..4 * i + 4] == [a, b, c, d]
  {
    hide LowByte;
    var q := Digest(h)[4 * i..4 * i + 4];
    assert q[0] == a && q[1] == b && q[2] == c && q[3] == d;
  }

  lemma HashedWords()
    ensures Hashed()[0] == 0xba7816bf && Hashed()[1] == 0x8f01cfea && Hashed()[2] == 0x414140de && Hashed()[3] == 0x5dae2223
    ensures Hashed()[4] == 0xb00361a3 && Hashed()[5] == 0x96177a9c && Hashed()[6] == 0xb410ff61 && Hashed()[7] == 0xf20015ad
  {
  }

  lemma {:induction false} FirstQuarter()
    ensures Digest(Hashed())[0..8] == [0xba, 0x78, 0x16, 0xbf, 0x8f, 0x01, 0xcf, 0xea]
  {
    hide Digest, Hashed;
    HashedWords();
    FourBytes(Hashed(), 0, 0xba7816bf, 0xba, 0x78, 0x16, 0xbf);
    FourBytes(Hashed(), 1, 0x8f01cfea, 0x8f, 0x01, 0xcf, 0xea);
  }

  lemma {:induction false} SecondQuarter()
    ensures Digest(Hashed())[8..16] == [0x41, 0x41, 0x40, 0xde, 0x5d, 0xae, 0x22, 0x23]
  {
    hide Digest, Hashed;
    HashedWords();
    FourBytes(Hashed(), 2, 0x414140de, 0x41, 0x41, 0x40, 0xde);
    FourBytes(Hashed(), 3, 0x5dae2223, 0x5d, 0xae, 0x22, 0x23);
  }

  lemma {:induction false} ThirdQuarter()
    ensures Digest(Hashed())[16..24] == [0xb0, 0x03, 0x61, 0xa3, 0x96, 0x17, 0x7a, 0x9c]
  {
    hide Digest, Hashed;
    HashedWords();
    FourBytes(Hashed(), 4, 0xb00361a3, 0xb0, 0x03, 0x61, 0xa3);
    FourBytes(Hashed(), 5, 0x96177a9c, 0x96, 0x17, 0x7a, 0x9c);
  }

  lemma {:induction false} FourthQuarter()
    ensures Digest(Hashed())[24..32] == [0xb4, 0x10, 0xff, 0x61, 0xf2, 0x00, 0x15, 0xad]
  {
    hide Digest, Hashed;
    HashedWords();
    FourBytes(Hashed(), 6, 0xb410ff61, 0xb4, 0x10, 0xff, 0x61);
    FourBytes(Hashed(), 7, 0xf20015ad, 0xf2, 0x00, 0x15, 0xad);
  }

  lemma {:induction false} AbcHashed()
    ensures Sha256(Abc()) == Digest(Hashed())
  {
    hide Absorb, PaddedBytes, BytesBits, Block, Digest, Hashed, Abc;
    AbcPadded();
    BlockHashed();
  }

  /** The digest of "abc". */
  lemma {:induction false} AbcDigest()
    ensures Sha256(Abc()) == [0xba, 0x78, 0x16, 0xbf, 0x8f, 0x01, 0xcf, 0xea]
                           + [0x41, 0x41, 0x40, 0xde, 0x5d, 0xae, 0x22, 0x23]
                           + [0xb0, 0x03, 0x61, 0xa3, 0x96, 0x17, 0x7a, 0x9c]
                           + [0xb4, 0x10, 0xff, 0x61, 0xf2, 0x00, 0x15, 0xad]
  {
    hide Sha256, Digest, Hashed, Abc;
    AbcHashed();
    FirstQuarter();
    SecondQuarter();
    ThirdQuarter();
    FourthQuarter();
    var d := Digest(Hashed());
    assert d == d[0..8] + d[8..16] + d[16..24] + d[24..32];
  }
}
