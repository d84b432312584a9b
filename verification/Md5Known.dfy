/** Three answers of the test suite in RFC 1321, section A.5, followed through the steps; the last takes two blocks. */
module Md5Known {
  import opened Md5Spec
  import opened Md5Rounds
  import opened Md5Bytes

  /** The state before step `n` of the table; the steps stay closed until a proof mentions them. */
  ghost predicate Reaches(from: State, x: seq<Word>, n: nat, st: State)
    requires |x| == 16
  {
    forall m {:trigger Steps(from, x, m)} :: m == n ==> Steps(from, x, m) == st
  }

  /** One step of the table, and the value it gives. */
  lemma Next(from: State, x: seq<Word>, n: nat, st: State, k: nat, t: Word, s: bv6, r: Word) returns (next: State)
    requires |x| == 16 && n < 64 && Reaches(from, x, n, st) && k == K(n) && t == T(n) && s == S(n)
    requires Turn(Mix(n, st.b, st.c, st.d), st.a, st.b, x[k], t, s) == r
    ensures Reaches(from, x, n + 1, next) && next == State(st.d, r, st.b, st.c)
  {
    assert Steps(from, x, n + 1) == Step(Steps(from, x, n), x, n);
    next := State(st.d, r, st.b, st.c);
  }

  lemma Compressed(from: State, x: seq<Word>, st: State)
    requires |x| == 16 && Reaches(from, x, 64, st)
    ensures Compress(from, x) == Add(st, from)
  {
    assert Steps(from, x, 4 * |x|) == st;
  }

  lemma Begin(from: State, x: seq<Word>)
    requires |x| == 16
    ensures Reaches(from, x, 0, from)
  {
    assert Steps(from, x, 0) == from;
  }

  /** A block of which only the first word and the length are not zero. */
  ghost predicate Block(x: seq<Word>, first: Word, length: Word) {
    |x| == 16 && x[0] == first && x[14] == length && forall k {:trigger x[k]} :: 0 < k < 16 && k != 14 ==> x[k] == 0
  }

  lemma Empty1(x: seq<Word>) returns (st: State)
    requires Block(x, 0x00000080, 0) && Reaches(INITIAL, x, 0, State(0x67452301, 0xefcdab89, 0x98badcfe, 0x10325476))
    ensures Reaches(INITIAL, x, 16, st) && st == State(0xf56c7cf1, 0xd6819c6a, 0x5aa53f75, 0x374943a7)
  {
    Table1();
    var from := INITIAL;
    st := State(0x67452301, 0xefcdab89, 0x98badcfe, 0x10325476);
    st := Next(from, x, 0, st, 0, 0xd76aa478, 7, 0xa5202774);
    st := Next(from, x, 1, st, 1, 0xe8c7b756, 12, 0xf59592dd);
    st := Next(from, x, 2, st, 2, 0x242070db, 17, 0xe7f06b23);
    st := Next(from, x, 3, st, 3, 0xc1bdceee, 22, 0x1b163203);
    st := Next(from, x, 4, st, 4, 0xf57c0faf, 7, 0x32033344);
    st := Next(from, x, 5, st, 5, 0x4787c62a, 12, 0x2f35d494);
    st := Next(from, x, 6, st, 6, 0xa8304613, 17, 0xf5b158db);
    st := Next(from, x, 7, st, 7, 0xfd469501, 22, 0x9bc13ce9);
    st := Next(from, x, 8, st, 8, 0x698098d8, 7, 0x3893b991);
    st := Next(from, x, 9, st, 9, 0x8b44f7af, 12, 0xfce4a312);
    st := Next(from, x, 10, st, 10, 0xffff5bb1, 17, 0xe1ef0576);
    st := Next(from, x, 11, st, 11, 0x895cd7be, 22, 0x70768a29);
    st := Next(from, x, 12, st, 12, 0x6b901122, 7, 0xf56c7cf1);
    st := Next(from, x, 13, st, 13, 0xfd987193, 12, 0x374943a7);
    st := Next(from, x, 14, st, 14, 0xa679438e, 17, 0x5aa53f75);
    st := Next(from, x, 15, st, 15, 0x49b40821, 22, 0xd6819c6a);
  }

  lemma Empty2(x: seq<Word>) returns (st: State)
    requires Block(x, 0x00000080, 0) && Reaches(INITIAL, x, 16, State(0xf56c7cf1, 0xd6819c6a, 0x5aa53f75, 0x374943a7))
    ensures Reaches(INITIAL, x, 32, st) && st == State(0x13707036, 0xa2205f1f, 0x1c31c384, 0xae7813db)
  {
    Table2();
    Uses2();
    var from := INITIAL;
    st := State(0xf56c7cf1, 0xd6819c6a, 0x5aa53f75, 0x374943a7);
    st := Next(from, x, 16, st, 1, 0xf61e2562, 5, 0x1c7d7513);
    st := Next(from, x, 17, st, 6, 0xc040b340, 9, 0x7bd57a3a);
    st := Next(from, x, 18, st, 11, 0x265e5a51, 14, 0xc095f13a);
    st := Next(from, x, 19, st, 0, 0xe9b6c7aa, 20, 0xbd782e17);
    st := Next(from, x, 20, st, 5, 0xd62f105d, 5, 0x3d1e3e6c);
    st := Next(from, x, 21, st, 10, 0x02441453, 9, 0x68b7b3e3);
    st := Next(from, x, 22, st, 15, 0xd8a1e681, 14, 0xeb41643e);
    st := Next(from, x, 23, st, 4, 0xe7d3fbc8, 20, 0xe422531a);
    st := Next(from, x, 24, st, 9, 0x21e1cde6, 5, 0x306ec122);
    st := Next(from, x, 25, st, 14, 0xc33707d6, 9, 0xd28c77c2);
    st := Next(from, x, 26, st, 3, 0xf4d50d87, 14, 0xa3c663da);
    st := Next(from, x, 27, st, 8, 0x455a14ed, 20, 0xa0572807);
    st := Next(from, x, 28, st, 13, 0xa9e3e905, 5, 0x13707036);
    st := Next(from, x, 29, st, 2, 0xfcefa3f8, 9, 0xae7813db);
    st := Next(from, x, 30, st, 7, 0x676f02d9, 14, 0x1c31c384);
    st := Next(from, x, 31, st, 12, 0x8d2a4c8a, 20, 0xa2205f1f);
  }

  lemma Empty3(x: seq<Word>) returns (st: State)
    requires Block(x, 0x00000080, 0) && Reaches(INITIAL, x, 32, State(0x13707036, 0xa2205f1f, 0x1c31c384, 0xae7813db))
    ensures Reaches(INITIAL, x, 48, st) && st == State(0x3f55edfd, 0xca7d2dbd, 0x68d84ea2, 0x22a31f54)
  {
    Table3();
    Uses3();
    var from := INITIAL;
    st := State(0x13707036, 0xa2205f1f, 0x1c31c384, 0xae7813db);
    st := Next(from, x, 32, st, 5, 0xfffa3942, 4, 0xdf63eaa1);
    st := Next(from, x, 33, st, 8, 0x8771f681, 11, 0xc3689f5b);
    st := Next(from, x, 34, st, 11, 0x6d9d6122, 16, 0x12f3e755);
    st := Next(from, x, 35, st, 14, 0xfde5380c, 23, 0x004b6669);
    st := Next(from, x, 36, st, 1, 0xa4beea44, 4, 0x5f7a9b2e);
    st := Next(from, x, 37, st, 4, 0x4bdecfa9, 11, 0xabc34e16);
    st := Next(from, x, 38, st, 7, 0xf6bb4b60, 16, 0x91ca4cb7);
    st := Next(from, x, 39, st, 10, 0xbebfbc70, 23, 0xc5dc8c15);
    st := Next(from, x, 40, st, 13, 0x289b7ec6, 4, 0x4497169d);
    st := Next(from, x, 41, st, 0, 0xeaa127fa, 11, 0x76fd93d4);
    st := Next(from, x, 42, st, 3, 0xd4ef3085, 16, 0xfd95f243);
    st := Next(from, x, 43, st, 6, 0x04881d05, 23, 0x0fe32453);
    st := Next(from, x, 44, st, 9, 0xd9d4d039, 4, 0x3f55edfd);
    st := Next(from, x, 45, st, 12, 0xe6db99e5, 11, 0x22a31f54);
    st := Next(from, x, 46, st, 15, 0x1fa27cf8, 16, 0x68d84ea2);
    st := Next(from, x, 47, st, 2, 0xc4ac5665, 23, 0xca7d2dbd);
  }

  lemma Empty4(x: seq<Word>) returns (st: State)
    requires Block(x, 0x00000080, 0) && Reaches(INITIAL, x, 48, State(0x3f55edfd, 0xca7d2dbd, 0x68d84ea2, 0x22a31f54))
    ensures Reaches(INITIAL, x, 64, st) && st == State(0x7246fad3, 0x14e45506, 0xff4ea3eb, 0x6e10a476)
  {
    Table4();
    Uses4();
    var from := INITIAL;
    st := State(0x3f55edfd, 0xca7d2dbd, 0x68d84ea2, 0x22a31f54);
    st := Next(from, x, 48, st, 0, 0xf4292244, 6, 0x93aa2577);
    st := Next(from, x, 49, st, 7, 0x432aff97, 10, 0x1688dc85);
    st := Next(from, x, 50, st, 14, 0xab9423a7, 15, 0xcd85b8cb);
    st := Next(from, x, 51, st, 5, 0xfc93a039, 21, 0x561e0689);
    st := Next(from, x, 52, st, 12, 0x655b59c3, 6, 0x5625a114);
    st := Next(from, x, 53, st, 3, 0x8f0ccc92, 10, 0x3450f42b);
    st := Next(from, x, 54, st, 10, 0xffeff47d, 15, 0x392ad0d0);
    st := Next(from, x, 55, st, 1, 0x85845dd1, 21, 0x1e77fa61);
    st := Next(from, x, 56, st, 8, 0x6fa87e4f, 6, 0x474a9c8c);
    st := Next(from, x, 57, st, 15, 0xfe2ce6e0, 10, 0xdfce00bc);
    st := Next(from, x, 58, st, 6, 0xa3014314, 15, 0x36594b14);
    st := Next(from, x, 59, st, 13, 0x4e0811a1, 21, 0x30130182);
    st := Next(from, x, 60, st, 4, 0xf7537e82, 6, 0x7246fad3);
    st := Next(from, x, 61, st, 11, 0xbd3af235, 10, 0x6e10a476);
    st := Next(from, x, 62, st, 2, 0x2ad7d2bb, 15, 0xff4ea3eb);
    st := Next(from, x, 63, st, 9, 0xeb86d391, 21, 0x14e45506);
  }

  lemma EmptyCompressed(x: seq<Word>)
    requires Block(x, 0x00000080, 0)
    ensures Compress(INITIAL, x) == State(0xd98c1dd4, 0x04b2008f, 0x980980e9, 0x7e42f8ec)
  {
    Begin(INITIAL, x);
    var st := Empty1(x);
    st := Empty2(x);
    st := Empty3(x);
    st := Empty4(x);
    Compressed(INITIAL, x, st);
  }

  lemma EmptyOutput()
    ensures Output(State(0xd98c1dd4, 0x04b2008f, 0x980980e9, 0x7e42f8ec)) ==
      [0xd4, 0x1d, 0x8c, 0xd9, 0x8f, 0x00, 0xb2, 0x04,
       0xe9, 0x80, 0x09, 0x98, 0xec, 0xf8, 0x42, 0x7e]
  {
  }

  /** MD5 ("") = d41d8cd98f00b204e9800998ecf8427e */
  lemma EmptyDigest()
    ensures Digest([]) ==
      [0xd4, 0x1d, 0x8c, 0xd9, 0x8f, 0x00, 0xb2, 0x04,
       0xe9, 0x80, 0x09, 0x98, 0xec, 0xf8, 0x42, 0x7e]
  {
    var p := Padded([]);
    EmptyBlock(p);
    OneBlock(p);
    EmptyCompressed(Words(p));
    EmptyOutput();
  }

  lemma Abc1(x: seq<Word>) returns (st: State)
    requires Block(x, 0x80636261, 24) && Reaches(INITIAL, x, 0, State(0x67452301, 0xefcdab89, 0x98badcfe, 0x10325476))
    ensures Reaches(INITIAL, x, 16, st) && st == State(0xdda9b9a6, 0x72aff2e0, 0xe396856b, 0xa1051895)
  {
    Table1();
    var from := INITIAL;
    st := State(0x67452301, 0xefcdab89, 0x98badcfe, 0x10325476);
    st := Next(from, x, 0, st, 0, 0xd76aa478, 7, 0xd6d117b4);
    st := Next(from, x, 1, st, 1, 0xe8c7b756, 12, 0x344a8432);
    st := Next(from, x, 2, st, 2, 0x242070db, 17, 0x2f6fbd72);
    st := Next(from, x, 3, st, 3, 0xc1bdceee, 22, 0x7ad956f2);
    st := Next(from, x, 4, st, 4, 0xf57c0faf, 7, 0xc73741ef);
    st := Next(from, x, 5, st, 5, 0x4787c62a, 12, 0x8bac3051);
    st := Next(from, x, 6, st, 6, 0xa8304613, 17, 0x207dc67b);
    st := Next(from, x, 7, st, 7, 0xfd469501, 22, 0x928d99f6);
    st := Next(from, x, 8, st, 8, 0x698098d8, 7, 0x854b3712);
    st := Next(from, x, 9, st, 9, 0x8b44f7af, 12, 0x74e2f284);
    st := Next(from, x, 10, st, 10, 0xffff5bb1, 17, 0x3020401c);
    st := Next(from, x, 11, st, 11, 0x895cd7be, 22, 0x5ed49596);
    st := Next(from, x, 12, st, 12, 0x6b901122, 7, 0xdda9b9a6);
    st := Next(from, x, 13, st, 13, 0xfd987193, 12, 0xa1051895);
    st := Next(from, x, 14, st, 14, 0xa679438e, 17, 0xe396856b);
    st := Next(from, x, 15, st, 15, 0x49b40821, 22, 0x72aff2e0);
  }

  lemma Abc2(x: seq<Word>) returns (st: State)
    requires Block(x, 0x80636261, 24) && Reaches(INITIAL, x, 16, State(0xdda9b9a6, 0x72aff2e0, 0xe396856b, 0xa1051895))
    ensures Reaches(INITIAL, x, 32, st) && st == State(0x790a77fb, 0x726342d3, 0xa62884aa, 0x9f47e4f8)
  {
    Table2();
    Uses2();
    var from := INITIAL;
    st := State(0xdda9b9a6, 0x72aff2e0, 0xe396856b, 0xa1051895);
    st := Next(from, x, 16, st, 1, 0xf61e2562, 5, 0x3e9e9126);
    st := Next(from, x, 17, st, 6, 0xc040b340, 9, 0x4a1d804e);
    st := Next(from, x, 18, st, 11, 0x265e5a51, 14, 0xe25e1652);
    st := Next(from, x, 19, st, 0, 0xe9b6c7aa, 20, 0xb5b204e4);
    st := Next(from, x, 20, st, 5, 0xd62f105d, 5, 0x59a8ffda);
    st := Next(from, x, 21, st, 10, 0x02441453, 9, 0x6d002f1e);
    st := Next(from, x, 22, st, 15, 0xd8a1e681, 14, 0xabfc7920);
    st := Next(from, x, 23, st, 4, 0xe7d3fbc8, 20, 0x47092c07);
    st := Next(from, x, 24, st, 9, 0x21e1cde6, 5, 0xb7f268cf);
    st := Next(from, x, 25, st, 14, 0xc33707d6, 9, 0x09388eff);
    st := Next(from, x, 26, st, 3, 0xf4d50d87, 14, 0xfe1623b1);
    st := Next(from, x, 27, st, 8, 0x455a14ed, 20, 0x786acb8f);
    st := Next(from, x, 28, st, 13, 0xa9e3e905, 5, 0x790a77fb);
    st := Next(from, x, 29, st, 2, 0xfcefa3f8, 9, 0x9f47e4f8);
    st := Next(from, x, 30, st, 7, 0x676f02d9, 14, 0xa62884aa);
    st := Next(from, x, 31, st, 12, 0x8d2a4c8a, 20, 0x726342d3);
  }

  lemma Abc3(x: seq<Word>) returns (st: State)
    requires Block(x, 0x80636261, 24) && Reaches(INITIAL, x, 32, State(0x790a77fb, 0x726342d3, 0xa62884aa, 0x9f47e4f8))
    ensures Reaches(INITIAL, x, 48, st) && st == State(0x7f2e507b, 0x7beb9700, 0x8fae6399, 0x99d9679d)
  {
    Table3();
    Uses3();
    var from := INITIAL;
    st := State(0x790a77fb, 0x726342d3, 0xa62884aa, 0x9f47e4f8);
    st := Next(from, x, 32, st, 5, 0xfffa3942, 4, 0xb3707ebf);
    st := Next(from, x, 33, st, 8, 0x8771f681, 11, 0x60127b2e);
    st := Next(from, x, 34, st, 11, 0x6d9d6122, 16, 0x8d212ff5);
    st := Next(from, x, 35, st, 14, 0xfde5380c, 23, 0x3b0875c7);
    st := Next(from, x, 36, st, 1, 0xa4beea44, 4, 0x21b117b9);
    st := Next(from, x, 37, st, 4, 0x4bdecfa9, 11, 0x6e7429d5);
    st := Next(from, x, 38, st, 7, 0xf6bb4b60, 16, 0x3575227e);
    st := Next(from, x, 39, st, 10, 0xbebfbc70, 23, 0x5a2f5ea5);
    st := Next(from, x, 40, st, 13, 0x289b7ec6, 4, 0x11de1779);
    st := Next(from, x, 41, st, 0, 0xeaa127fa, 11, 0xfadcaa38);
    st := Next(from, x, 42, st, 3, 0xd4ef3085, 16, 0x31c465ca);
    st := Next(from, x, 43, st, 6, 0x04881d05, 23, 0x4c6124f4);
    st := Next(from, x, 44, st, 9, 0xd9d4d039, 4, 0x7f2e507b);
    st := Next(from, x, 45, st, 12, 0xe6db99e5, 11, 0x99d9679d);
    st := Next(from, x, 46, st, 15, 0x1fa27cf8, 16, 0x8fae6399);
    st := Next(from, x, 47, st, 2, 0xc4ac5665, 23, 0x7beb9700);
  }

  lemma Abc4(x: seq<Word>) returns (st: State)
    requires Block(x, 0x80636261, 24) && Reaches(INITIAL, x, 48, State(0x7f2e507b, 0x7beb9700, 0x8fae6399, 0x99d9679d))
    ensures Reaches(INITIAL, x, 64, st) && st == State(0x310ade8f, 0xc08226b3, 0xe484b9d8, 0x624d8cb2)
  {
    Table4();
    Uses4();
    var from := INITIAL;
    st := State(0x7f2e507b, 0x7beb9700, 0x8fae6399, 0x99d9679d);
    st := Next(from, x, 48, st, 0, 0xf4292244, 6, 0x7b201df8);
    st := Next(from, x, 49, st, 7, 0x432aff97, 10, 0xf4e8e96e);
    st := Next(from, x, 50, st, 14, 0xab9423a7, 15, 0xb298cefd);
    st := Next(from, x, 51, st, 5, 0xfc93a039, 21, 0x8bf025c4);
    st := Next(from, x, 52, st, 12, 0x655b59c3, 6, 0x06cc5e8a);
    st := Next(from, x, 53, st, 3, 0x8f0ccc92, 10, 0x5b0d97aa);
    st := Next(from, x, 54, st, 10, 0xffeff47d, 15, 0x7d632dd0);
    st := Next(from, x, 55, st, 1, 0x85845dd1, 21, 0x3bfa2c27);
    st := Next(from, x, 56, st, 8, 0x6fa87e4f, 6, 0x7f81cc35);
    st := Next(from, x, 57, st, 15, 0xfe2ce6e0, 10, 0x094454ab);
    st := Next(from, x, 58, st, 6, 0xa3014314, 15, 0x4f9dbe3f);
    st := Next(from, x, 59, st, 13, 0x4e0811a1, 21, 0x7327d604);
    st := Next(from, x, 60, st, 4, 0xf7537e82, 6, 0x310ade8f);
    st := Next(from, x, 61, st, 11, 0xbd3af235, 10, 0x624d8cb2);
    st := Next(from, x, 62, st, 2, 0x2ad7d2bb, 15, 0xe484b9d8);
    st := Next(from, x, 63, st, 9, 0xeb86d391, 21, 0xc08226b3);
  }

  lemma AbcCompressed(x: seq<Word>)
    requires Block(x, 0x80636261, 24)
    ensures Compress(INITIAL, x) == State(0x98500190, 0xb04fd23c, 0x7d3f96d6, 0x727fe128)
  {
    Begin(INITIAL, x);
    var st := Abc1(x);
    st := Abc2(x);
    st := Abc3(x);
    st := Abc4(x);
    Compressed(INITIAL, x, st);
  }

  lemma AbcOutput()
    ensures Output(State(0x98500190, 0xb04fd23c, 0x7d3f96d6, 0x727fe128)) ==
      [0x90, 0x01, 0x50, 0x98, 0x3c, 0xd2, 0x4f, 0xb0,
       0xd6, 0x96, 0x3f, 0x7d, 0x28, 0xe1, 0x7f, 0x72]
  {
  }

  /** MD5 ("abc") = 900150983cd24fb0d6963f7d28e17f72 */
  lemma AbcDigest()
    ensures Digest([0x61, 0x62, 0x63]) ==
      [0x90, 0x01, 0x50, 0x98, 0x3c, 0xd2, 0x4f, 0xb0,
       0xd6, 0x96, 0x3f, 0x7d, 0x28, 0xe1, 0x7f, 0x72]
  {
    var p := Padded([0x61, 0x62, 0x63]);
    AbcBlock(p);
    OneBlock(p);
    AbcCompressed(Words(p));
    AbcOutput();
  }

  // ---------- two blocks ----------

  ghost predicate Four(s: seq<Byte>, i: nat, a: Byte, b: Byte, c: Byte, d: Byte) {
    i + 4 <= |s| && s[i] == a && s[i + 1] == b && s[i + 2] == c && s[i + 3] == d
  }

  /** The letters and digits "ABCDEFGHIJKLMNOPQRSTUVWXYZabcdefghijklmnopqrstuvwxyz0123456789". */
  ghost predicate Alphabet(msg: seq<Byte>) {
    && |msg| == 62
    && Four(msg, 0, 0x41, 0x42, 0x43, 0x44)
    && Four(msg, 4, 0x45, 0x46, 0x47, 0x48)
    && Four(msg, 8, 0x49, 0x4a, 0x4b, 0x4c)
    && Four(msg, 12, 0x4d, 0x4e, 0x4f, 0x50)
    && Four(msg, 16, 0x51, 0x52, 0x53, 0x54)
    && Four(msg, 20, 0x55, 0x56, 0x57, 0x58)
    && Four(msg, 24, 0x59, 0x5a, 0x61, 0x62)
    && Four(msg, 28, 0x63, 0x64, 0x65, 0x66)
    && Four(msg, 32, 0x67, 0x68, 0x69, 0x6a)
    && Four(msg, 36, 0x6b, 0x6c, 0x6d, 0x6e)
    && Four(msg, 40, 0x6f, 0x70, 0x71, 0x72)
    && Four(msg, 44, 0x73, 0x74, 0x75, 0x76)
    && Four(msg, 48, 0x77, 0x78, 0x79, 0x7a)
    && Four(msg, 52, 0x30, 0x31, 0x32, 0x33)
    && Four(msg, 56, 0x34, 0x35, 0x36, 0x37)
    && msg[60] == 0x38 && msg[61] == 0x39
  }

  ghost predicate AlphabetWords(x: seq<Word>) {
    && |x| == 16
    && x[0] == 0x44434241 && x[1] == 0x48474645 && x[2] == 0x4c4b4a49 && x[3] == 0x504f4e4d
    && x[4] == 0x54535251 && x[5] == 0x58575655 && x[6] == 0x62615a59 && x[7] == 0x66656463
    && x[8] == 0x6a696867 && x[9] == 0x6e6d6c6b && x[10] == 0x7271706f && x[11] == 0x76757473
    && x[12] == 0x7a797877 && x[13] == 0x33323130 && x[14] == 0x37363534 && x[15] == 0x00803938
  }

  lemma First1(x: seq<Word>) returns (st: State)
    requires AlphabetWords(x) && Reaches(INITIAL, x, 0, State(0x67452301, 0xefcdab89, 0x98badcfe, 0x10325476))
    ensures Reaches(INITIAL, x, 16, st) && st == State(0x3cbdcd45, 0x5d38e690, 0xfa148c8a, 0xb8dec763)
  {
    Table1();
    var from := INITIAL;
    st := State(0x67452301, 0xefcdab89, 0x98badcfe, 0x10325476);
    st := Next(from, x, 0, st, 0, 0xd76aa478, 7, 0xc6c10796);
    st := Next(from, x, 1, st, 1, 0xe8c7b756, 12, 0x99a09999);
    st := Next(from, x, 2, st, 2, 0x242070db, 17, 0x11067980);
    st := Next(from, x, 3, st, 3, 0xc1bdceee, 22, 0x27bce07a);
    st := Next(from, x, 4, st, 4, 0xf57c0faf, 7, 0xf22e6c4e);
    st := Next(from, x, 5, st, 5, 0x4787c62a, 12, 0xb4ac9218);
    st := Next(from, x, 6, st, 6, 0xa8304613, 17, 0xa95a2fc0);
    st := Next(from, x, 7, st, 7, 0xfd469501, 22, 0xa4799506);
    st := Next(from, x, 8, st, 8, 0x698098d8, 7, 0x1eb3e7c1);
    st := Next(from, x, 9, st, 9, 0x8b44f7af, 12, 0xa6e70cfe);
    st := Next(from, x, 10, st, 10, 0xffff5bb1, 17, 0xca27520b);
    st := Next(from, x, 11, st, 11, 0x895cd7be, 22, 0x8a7612ec);
    st := Next(from, x, 12, st, 12, 0x6b901122, 7, 0x3cbdcd45);
    st := Next(from, x, 13, st, 13, 0xfd987193, 12, 0xb8dec763);
    st := Next(from, x, 14, st, 14, 0xa679438e, 17, 0xfa148c8a);
    st := Next(from, x, 15, st, 15, 0x49b40821, 22, 0x5d38e690);
  }

  lemma First2(x: seq<Word>) returns (st: State)
    requires AlphabetWords(x) && Reaches(INITIAL, x, 16, State(0x3cbdcd45, 0x5d38e690, 0xfa148c8a, 0xb8dec763))
    ensures Reaches(INITIAL, x, 32, st) && st == State(0x9b085fa9, 0xdd789ecc, 0x5993248f, 0x4400a9bd)
  {
    Table2();
    Uses2();
    var from := INITIAL;
    st := State(0x3cbdcd45, 0x5d38e690, 0xfa148c8a, 0xb8dec763);
    st := Next(from, x, 16, st, 1, 0xf61e2562, 5, 0x04b9d52a);
    st := Next(from, x, 17, st, 6, 0xc040b340, 9, 0x783002eb);
    st := Next(from, x, 18, st, 11, 0x265e5a51, 14, 0xd3ee3ed1);
    st := Next(from, x, 19, st, 0, 0xe9b6c7aa, 20, 0x47ae7c81);
    st := Next(from, x, 20, st, 5, 0xd62f105d, 5, 0x2d7d8a3f);
    st := Next(from, x, 21, st, 10, 0x02441453, 9, 0xd1210823);
    st := Next(from, x, 22, st, 15, 0xd8a1e681, 14, 0x4b534dc3);
    st := Next(from, x, 23, st, 4, 0xe7d3fbc8, 20, 0x75292030);
    st := Next(from, x, 24, st, 9, 0x21e1cde6, 5, 0x9d2a6e33);
    st := Next(from, x, 25, st, 14, 0xc33707d6, 9, 0x0e8d2e44);
    st := Next(from, x, 26, st, 3, 0xf4d50d87, 14, 0xd473b564);
    st := Next(from, x, 27, st, 8, 0x455a14ed, 20, 0xf2ff6ea0);
    st := Next(from, x, 28, st, 13, 0xa9e3e905, 5, 0x9b085fa9);
    st := Next(from, x, 29, st, 2, 0xfcefa3f8, 9, 0x4400a9bd);
    st := Next(from, x, 30, st, 7, 0x676f02d9, 14, 0x5993248f);
    st := Next(from, x, 31, st, 12, 0x8d2a4c8a, 20, 0xdd789ecc);
  }

  lemma First3(x: seq<Word>) returns (st: State)
    requires AlphabetWords(x) && Reaches(INITIAL, x, 32, State(0x9b085fa9, 0xdd789ecc, 0x5993248f, 0x4400a9bd))
    ensures Reaches(INITIAL, x, 48, st) && st == State(0x2dbee21d, 0xf166f514, 0xee46e961, 0xe95c3a43)
  {
    Table3();
    Uses3();
    var from := INITIAL;
    st := State(0x9b085fa9, 0xdd789ecc, 0x5993248f, 0x4400a9bd);
    st := Next(from, x, 32, st, 5, 0xfffa3942, 4, 0x21c8d2b7);
    st := Next(from, x, 33, st, 8, 0x8771f681, 11, 0x1d55a18e);
    st := Next(from, x, 34, st, 11, 0x6d9d6122, 16, 0x056ec119);
    st := Next(from, x, 35, st, 14, 0xfde5380c, 23, 0x1b9504f8);
    st := Next(from, x, 36, st, 1, 0xa4beea44, 4, 0x436b7fe9);
    st := Next(from, x, 37, st, 4, 0x4bdecfa9, 11, 0x075800c1);
    st := Next(from, x, 38, st, 7, 0xf6bb4b60, 16, 0xf404c2f6);
    st := Next(from, x, 39, st, 10, 0xbebfbc70, 23, 0xcf0341ed);
    st := Next(from, x, 40, st, 13, 0x289b7ec6, 4, 0x888e7d8a);
    st := Next(from, x, 41, st, 0, 0xeaa127fa, 11, 0xbbdaecd8);
    st := Next(from, x, 42, st, 3, 0xd4ef3085, 16, 0xce620273);
    st := Next(from, x, 43, st, 6, 0x04881d05, 23, 0x047b9419);
    st := Next(from, x, 44, st, 9, 0xd9d4d039, 4, 0x2dbee21d);
    st := Next(from, x, 45, st, 12, 0xe6db99e5, 11, 0xe95c3a43);
    st := Next(from, x, 46, st, 15, 0x1fa27cf8, 16, 0xee46e961);
    st := Next(from, x, 47, st, 2, 0xc4ac5665, 23, 0xf166f514);
  }

  lemma First4(x: seq<Word>) returns (st: State)
    requires AlphabetWords(x) && Reaches(INITIAL, x, 48, State(0x2dbee21d, 0xf166f514, 0xee46e961, 0xe95c3a43))
    ensures Reaches(INITIAL, x, 64, st) && st == State(0x1cb80f0a, 0xef2e3a46, 0x10f68731, 0xea3d3eb4)
  {
    Table4();
    Uses4();
    var from := INITIAL;
    st := State(0x2dbee21d, 0xf166f514, 0xee46e961, 0xe95c3a43);
    st := Next(from, x, 48, st, 0, 0xf4292244, 6, 0xe47fd4f3);
    st := Next(from, x, 49, st, 7, 0x432aff97, 10, 0xfb887751);
    st := Next(from, x, 50, st, 14, 0xab9423a7, 15, 0xf22aedcc);
    st := Next(from, x, 51, st, 5, 0xfc93a039, 21, 0x7a13bc5c);
    st := Next(from, x, 52, st, 12, 0x655b59c3, 6, 0xa691d430);
    st := Next(from, x, 53, st, 3, 0x8f0ccc92, 10, 0x528452f2);
    st := Next(from, x, 54, st, 10, 0xffeff47d, 15, 0x3fc23df6);
    st := Next(from, x, 55, st, 1, 0x85845dd1, 21, 0xefb0e72f);
    st := Next(from, x, 56, st, 8, 0x6fa87e4f, 6, 0x27145703);
    st := Next(from, x, 57, st, 15, 0xfe2ce6e0, 10, 0x21a11069);
    st := Next(from, x, 58, st, 6, 0xa3014314, 15, 0x374fbe79);
    st := Next(from, x, 59, st, 13, 0x4e0811a1, 21, 0x49d9a5b4);
    st := Next(from, x, 60, st, 4, 0xf7537e82, 6, 0x1cb80f0a);
    st := Next(from, x, 61, st, 11, 0xbd3af235, 10, 0xea3d3eb4);
    st := Next(from, x, 62, st, 2, 0x2ad7d2bb, 15, 0x10f68731);
    st := Next(from, x, 63, st, 9, 0xeb86d391, 21, 0xef2e3a46);
  }

  lemma FirstCompressed(x: seq<Word>)
    requires AlphabetWords(x)
    ensures Compress(INITIAL, x) == State(0x83fd320b, 0xdefbe5cf, 0xa9b1642f, 0xfa6f932a)
  {
    Begin(INITIAL, x);
    var st := First1(x);
    st := First2(x);
    st := First3(x);
    st := First4(x);
    Compressed(INITIAL, x, st);
  }

  lemma Second1(x: seq<Word>) returns (st: State)
    requires Block(x, 0, 496) && Reaches(State(0x83fd320b, 0xdefbe5cf, 0xa9b1642f, 0xfa6f932a), x, 0, State(0x83fd320b, 0xdefbe5cf, 0xa9b1642f, 0xfa6f932a))
    ensures Reaches(State(0x83fd320b, 0xdefbe5cf, 0xa9b1642f, 0xfa6f932a), x, 16, st) && st == State(0xa70737da, 0xa36f556f, 0x96f6586e, 0x5473f8a7)
  {
    Table1();
    var from := State(0x83fd320b, 0xdefbe5cf, 0xa9b1642f, 0xfa6f932a);
    st := State(0x83fd320b, 0xdefbe5cf, 0xa9b1642f, 0xfa6f932a);
    st := Next(from, x, 0, st, 0, 0xd76aa478, 7, 0xeda23ed1);
    st := Next(from, x, 1, st, 1, 0xe8c7b756, 12, 0x989939cf);
    st := Next(from, x, 2, st, 2, 0x242070db, 17, 0x3c307338);
    st := Next(from, x, 3, st, 3, 0xc1bdceee, 22, 0xddcf0634);
    st := Next(from, x, 4, st, 4, 0xf57c0faf, 7, 0x75144433);
    st := Next(from, x, 5, st, 5, 0x4787c62a, 12, 0xc8875807);
    st := Next(from, x, 6, st, 6, 0xa8304613, 17, 0xc783cb60);
    st := Next(from, x, 7, st, 7, 0xfd469501, 22, 0x99b6b699);
    st := Next(from, x, 8, st, 8, 0x698098d8, 7, 0xa60a3f69);
    st := Next(from, x, 9, st, 9, 0x8b44f7af, 12, 0xaa6630be);
    st := Next(from, x, 10, st, 10, 0xffff5bb1, 17, 0x64db26e9);
    st := Next(from, x, 11, st, 11, 0x895cd7be, 22, 0x64cc7c5a);
    st := Next(from, x, 12, st, 12, 0x6b901122, 7, 0xa70737da);
    st := Next(from, x, 13, st, 13, 0xfd987193, 12, 0x5473f8a7);
    st := Next(from, x, 14, st, 14, 0xa679438e, 17, 0x96f6586e);
    st := Next(from, x, 15, st, 15, 0x49b40821, 22, 0xa36f556f);
  }

  lemma Second2(x: seq<Word>) returns (st: State)
    requires Block(x, 0, 496) && Reaches(State(0x83fd320b, 0xdefbe5cf, 0xa9b1642f, 0xfa6f932a), x, 16, State(0xa70737da, 0xa36f556f, 0x96f6586e, 0x5473f8a7))
    ensures Reaches(State(0x83fd320b, 0xdefbe5cf, 0xa9b1642f, 0xfa6f932a), x, 32, st) && st == State(0x24eba695, 0x9c03e2e8, 0x10c42a2f, 0x4bd0378b)
  {
    Table2();
    Uses2();
    var from := State(0x83fd320b, 0xdefbe5cf, 0xa9b1642f, 0xfa6f932a);
    st := State(0xa70737da, 0xa36f556f, 0x96f6586e, 0x5473f8a7);
    st := Next(from, x, 16, st, 1, 0xf61e2562, 5, 0xa5050ad3);
    st := Next(from, x, 17, st, 6, 0xc040b340, 9, 0x28776046);
    st := Next(from, x, 18, st, 11, 0x265e5a51, 14, 0x27dcd8b4);
    st := Next(from, x, 19, st, 0, 0xe9b6c7aa, 20, 0x82b8827c);
    st := Next(from, x, 20, st, 5, 0xd62f105d, 5, 0xe04f070c);
    st := Next(from, x, 21, st, 10, 0x02441453, 9, 0x2f3cd2a2);
    st := Next(from, x, 22, st, 15, 0xd8a1e681, 14, 0xc0d22b61);
    st := Next(from, x, 23, st, 4, 0xe7d3fbc8, 20, 0xdf35cb56);
    st := Next(from, x, 24, st, 9, 0x21e1cde6, 5, 0x242dd210);
    st := Next(from, x, 25, st, 14, 0xc33707d6, 9, 0x576ace33);
    st := Next(from, x, 26, st, 3, 0xf4d50d87, 14, 0x5c295967);
    st := Next(from, x, 27, st, 8, 0x455a14ed, 20, 0x2291191a);
    st := Next(from, x, 28, st, 13, 0xa9e3e905, 5, 0x24eba695);
    st := Next(from, x, 29, st, 2, 0xfcefa3f8, 9, 0x4bd0378b);
    st := Next(from, x, 30, st, 7, 0x676f02d9, 14, 0x10c42a2f);
    st := Next(from, x, 31, st, 12, 0x8d2a4c8a, 20, 0x9c03e2e8);
  }

  lemma Second3(x: seq<Word>) returns (st: State)
    requires Block(x, 0, 496) && Reaches(State(0x83fd320b, 0xdefbe5cf, 0xa9b1642f, 0xfa6f932a), x, 32, State(0x24eba695, 0x9c03e2e8, 0x10c42a2f, 0x4bd0378b))
    ensures Reaches(State(0x83fd320b, 0xdefbe5cf, 0xa9b1642f, 0xfa6f932a), x, 48, st) && st == State(0x54c9eb3a, 0x79c0710a, 0x2ec86f72, 0xd4d9c6ac)
  {
    Table3();
    Uses3();
    var from := State(0x83fd320b, 0xdefbe5cf, 0xa9b1642f, 0xfa6f932a);
    st := State(0x24eba695, 0x9c03e2e8, 0x10c42a2f, 0x4bd0378b);
    st := Next(from, x, 32, st, 5, 0xfffa3942, 4, 0x5be1d526);
    st := Next(from, x, 33, st, 8, 0x8771f681, 11, 0x9e414279);
    st := Next(from, x, 34, st, 11, 0x6d9d6122, 16, 0x9f4a1a7e);
    st := Next(from, x, 35, st, 14, 0xfde5380c, 23, 0xa2448453);
    st := Next(from, x, 36, st, 1, 0xa4beea44, 4, 0xe14e403d);
    st := Next(from, x, 37, st, 4, 0x4bdecfa9, 11, 0xe8cfd670);
    st := Next(from, x, 38, st, 7, 0xf6bb4b60, 16, 0x60cc183a);
    st := Next(from, x, 39, st, 10, 0xbebfbc70, 23, 0xfe314121);
    st := Next(from, x, 40, st, 13, 0x289b7ec6, 4, 0xfff62809);
    st := Next(from, x, 41, st, 0, 0xeaa127fa, 11, 0xe37209ac);
    st := Next(from, x, 42, st, 3, 0xd4ef3085, 16, 0x8cb5221c);
    st := Next(from, x, 43, st, 6, 0x04881d05, 23, 0x7c7e974c);
    st := Next(from, x, 44, st, 9, 0xd9d4d039, 4, 0x54c9eb3a);
    st := Next(from, x, 45, st, 12, 0xe6db99e5, 11, 0xd4d9c6ac);
    st := Next(from, x, 46, st, 15, 0x1fa27cf8, 16, 0x2ec86f72);
    st := Next(from, x, 47, st, 2, 0xc4ac5665, 23, 0x79c0710a);
  }

  lemma Second4(x: seq<Word>) returns (st: State)
    requires Block(x, 0, 496) && Reaches(State(0x83fd320b, 0xdefbe5cf, 0xa9b1642f, 0xfa6f932a), x, 48, State(0x54c9eb3a, 0x79c0710a, 0x2ec86f72, 0xd4d9c6ac))
    ensures Reaches(State(0x83fd320b, 0xdefbe5cf, 0xa9b1642f, 0xfa6f932a), x, 64, st) && st == State(0x14ae42c6, 0x16dd9203, 0x826afd76, 0xa52dae75)
  {
    Table4();
    Uses4();
    var from := State(0x83fd320b, 0xdefbe5cf, 0xa9b1642f, 0xfa6f932a);
    st := State(0x54c9eb3a, 0x79c0710a, 0x2ec86f72, 0xd4d9c6ac);
    st := Next(from, x, 48, st, 0, 0xf4292244, 6, 0x02095af1);
    st := Next(from, x, 49, st, 7, 0x432aff97, 10, 0x13d245fd);
    st := Next(from, x, 50, st, 14, 0xab9423a7, 15, 0xa8dcfe26);
    st := Next(from, x, 51, st, 5, 0xfc93a039, 21, 0x2ba98e3f);
    st := Next(from, x, 52, st, 12, 0x655b59c3, 6, 0xe126c1aa);
    st := Next(from, x, 53, st, 3, 0x8f0ccc92, 10, 0x96b00fa7);
    st := Next(from, x, 54, st, 10, 0xffeff47d, 15, 0x6f287ff5);
    st := Next(from, x, 55, st, 1, 0x85845dd1, 21, 0xfb7bcee0);
    st := Next(from, x, 56, st, 8, 0x6fa87e4f, 6, 0x452c1099);
    st := Next(from, x, 57, st, 15, 0xfe2ce6e0, 10, 0xca801ba6);
    st := Next(from, x, 58, st, 6, 0xa3014314, 15, 0xc197ea8e);
    st := Next(from, x, 59, st, 13, 0x4e0811a1, 21, 0x5ac74608);
    st := Next(from, x, 60, st, 4, 0xf7537e82, 6, 0x14ae42c6);
    st := Next(from, x, 61, st, 11, 0xbd3af235, 10, 0xa52dae75);
    st := Next(from, x, 62, st, 2, 0x2ad7d2bb, 15, 0x826afd76);
    st := Next(from, x, 63, st, 9, 0xeb86d391, 21, 0x16dd9203);
  }

  lemma SecondCompressed(x: seq<Word>)
    requires Block(x, 0, 496)
    ensures Compress(State(0x83fd320b, 0xdefbe5cf, 0xa9b1642f, 0xfa6f932a), x) == State(0x98ab74d1, 0xf5d977d2, 0x2c1c61a5, 0x9f9d419f)
  {
    Begin(State(0x83fd320b, 0xdefbe5cf, 0xa9b1642f, 0xfa6f932a), x);
    var st := Second1(x);
    st := Second2(x);
    st := Second3(x);
    st := Second4(x);
    Compressed(State(0x83fd320b, 0xdefbe5cf, 0xa9b1642f, 0xfa6f932a), x, st);
  }

  lemma SecondOutput()
    ensures Output(State(0x98ab74d1, 0xf5d977d2, 0x2c1c61a5, 0x9f9d419f)) ==
      [0xd1, 0x74, 0xab, 0x98, 0xd2, 0x77, 0xd9, 0xf5,
       0xa5, 0x61, 0x1c, 0x2c, 0x9f, 0x41, 0x9d, 0x9f]
  {
  }

  lemma FourWord(p: seq<Byte>, i: nat, a: Byte, b: Byte, c: Byte, d: Byte)
    requires Four(p, i, a, b, c, d)
    ensures WordAt(p, i) == (a as Word) | ((b as Word) << 8) | ((c as Word) << 16) | ((d as Word) << 24)
  {
  }

  lemma FrontWords(p: seq<Byte>, x: seq<Word>)
    requires |p| == 64 && Alphabet(p[..62]) && p[62] == 0x80 && p[63] == 0 && x == Words(p)
    ensures AlphabetWords(x)
  {
    FourWord(p, 0, 0x41, 0x42, 0x43, 0x44);
    FourWord(p, 4, 0x45, 0x46, 0x47, 0x48);
    FourWord(p, 8, 0x49, 0x4a, 0x4b, 0x4c);
    FourWord(p, 12, 0x4d, 0x4e, 0x4f, 0x50);
    FourWord(p, 16, 0x51, 0x52, 0x53, 0x54);
    FourWord(p, 20, 0x55, 0x56, 0x57, 0x58);
    FourWord(p, 24, 0x59, 0x5a, 0x61, 0x62);
    FourWord(p, 28, 0x63, 0x64, 0x65, 0x66);
    FourWord(p, 32, 0x67, 0x68, 0x69, 0x6a);
    FourWord(p, 36, 0x6b, 0x6c, 0x6d, 0x6e);
    FourWord(p, 40, 0x6f, 0x70, 0x71, 0x72);
    FourWord(p, 44, 0x73, 0x74, 0x75, 0x76);
    FourWord(p, 48, 0x77, 0x78, 0x79, 0x7a);
    FourWord(p, 52, 0x30, 0x31, 0x32, 0x33);
    FourWord(p, 56, 0x34, 0x35, 0x36, 0x37);
    FourWord(p, 60, 0x38, 0x39, 0x80, 0);
  }

  lemma TwoBlocks(p: seq<Byte>)
    requires |p| == 128
    ensures Fold(INITIAL, p) == Compress(Compress(INITIAL, Words(p[..64])), Words(p[64..]))
  {
    var st := Compress(INITIAL, Words(p[..64]));
    assert p[64..][..64] == p[64..] && p[64..][64..] == [];
    assert Fold(st, p[64..]) == Compress(st, Words(p[64..]));
  }

  lemma AlphabetPadding(msg: seq<Byte>, p: seq<Byte>)
    requires Alphabet(msg) && p == Padded(msg)
    ensures |p| == 128 && p[..62] == msg && p[62] == 0x80 && (forall k :: 62 < k < 120 ==> p[k] == 0)
    ensures p[120] == 0xf0 && p[121] == 1 && forall k :: 122 <= k < 128 ==> p[k] == 0
  {
    var v := 8 * |msg|;
    var l := LittleEndian(v, 8);
    LengthBytes(v, l);
    LongGap(|msg|);
    LongLaid(msg, l, p);
  }

  lemma LongGap(n: nat)
    requires n == 62
    ensures Gap(n) == 57 && 8 * n % 0x1_0000_0000_0000_0000 == 8 * n
  {
  }

  lemma LongLaid(msg: seq<Byte>, l: seq<Byte>, p: seq<Byte>)
    requires |msg| == 62 && |l| == 8 && l[0] == 0xf0 && l[1] == 1 && forall k :: 2 <= k < 8 ==> l[k] == 0
    requires p == msg + [0x80] + Zeros(57) + l
    ensures |p| == 128 && p[..62] == msg && p[62] == 0x80 && (forall k :: 62 < k < 120 ==> p[k] == 0)
    ensures p[120] == 0xf0 && p[121] == 1 && forall k :: 122 <= k < 128 ==> p[k] == 0
  {
    assert forall k :: 120 <= k < 128 ==> p[k] == l[k - 120];
  }

  lemma LengthBytes(v: nat, l: seq<Byte>)
    requires v == 0x1f0 && l == LittleEndian(v, 7 + 1)
    ensures |l| == 8 && l[0] == 0xf0 && l[1] == 1 && forall k :: 2 <= k < 8 ==> l[k] == 0
  {
    LowestFirst(v, 7, l);
    var r, w := v % 0x100, v / 0x100;
    Split(v, r, w);
    LengthParts(r, w, l);
  }

  lemma Split(v: nat, r: nat, w: nat)
    requires v == 0x1f0 && r == v % 0x100 && w == v / 0x100
    ensures r == 0xf0 && w == 1
  {
  }

  lemma LengthParts(r: nat, w: nat, l: seq<Byte>)
    requires r == 0xf0 && w == 1 && |l| == 8 && IsByte(l[0], r) && l[1..] == LittleEndian(w, 7)
    ensures l[0] == 0xf0 && l[1] == 1 && forall k :: 2 <= k < 8 ==> l[k] == 0
  {
    IsF0(l[0]);
    SecondByte(w, l[1..]);
    forall k | 1 <= k < 8 ensures l[k] == l[1..][k - 1] {
    }
  }

  lemma IsF0(b: Byte)
    requires IsByte(b, 0xf0)
    ensures b == 0xf0
  {
    SameByte(b, 0xf0, 0xf0);
  }

  lemma SecondByte(w: nat, t: seq<Byte>)
    requires w == 1 && t == LittleEndian(w, 7)
    ensures |t| == 7 && t[0] == 1 && forall k :: 1 <= k < 7 ==> t[k] == 0
  {
    ShortDigits(w, 6, t, 1);
  }

  /** The two halves of the padded message. */
  lemma Halves(msg: seq<Byte>, p: seq<Byte>)
    requires |p| == 128 && |msg| == 62 && p[..62] == msg && p[62] == 0x80 && (forall k :: 62 < k < 120 ==> p[k] == 0)
    requires p[120] == 0xf0 && p[121] == 1 && forall k :: 122 <= k < 128 ==> p[k] == 0
    ensures p[..64][..62] == msg && p[..64][62] == 0x80 && p[..64][63] == 0
    ensures (forall k :: 0 <= k < 64 && k != 56 && k != 57 ==> p[64..][k] == 0) && p[64..][56] == 0xf0 && p[64..][57] == 1
  {
    forall k | 0 <= k < 64 && k != 56 && k != 57 ensures p[64..][k] == 0 {
      assert p[64..][k] == p[64 + k];
    }
  }

  lemma BackWords(q: seq<Byte>)
    requires |q| == 64 && (forall k :: 0 <= k < 64 && k != 56 && k != 57 ==> q[k] == 0) && q[56] == 0xf0 && q[57] == 1
    ensures Block(Words(q), 0, 496)
  {
    ZeroWord(q, 0);
    FourWord(q, 56, 0xf0, 1, 0, 0);
    BlockWords(q, 0, 496);
  }

  lemma AlphabetBlocks(msg: seq<Byte>, f: seq<Byte>, q: seq<Byte>)
    requires Alphabet(msg) && |f| == 64 == |q| && f[..62] == msg && f[62] == 0x80 && f[63] == 0
    requires (forall k :: 0 <= k < 64 && k != 56 && k != 57 ==> q[k] == 0) && q[56] == 0xf0 && q[57] == 1
    ensures Compress(Compress(INITIAL, Words(f)), Words(q)) == State(0x98ab74d1, 0xf5d977d2, 0x2c1c61a5, 0x9f9d419f)
  {
    FrontWords(f, Words(f));
    BackWords(q);
    FirstCompressed(Words(f));
    SecondCompressed(Words(q));
  }

  /** MD5 ("ABCDEFGHIJKLMNOPQRSTUVWXYZabcdefghijklmnopqrstuvwxyz0123456789") = d174ab98d277d9f5a5611c2c9f419d9f */
  lemma AlphabetDigest(msg: seq<Byte>)
    requires Alphabet(msg)
    ensures Digest(msg) ==
      [0xd1, 0x74, 0xab, 0x98, 0xd2, 0x77, 0xd9, 0xf5,
       0xa5, 0x61, 0x1c, 0x2c, 0x9f, 0x41, 0x9d, 0x9f]
  {
    var p := Padded(msg);
    AlphabetPadding(msg, p);
    TwoBlocks(p);
    Halves(msg, p);
    AlphabetBlocks(msg, p[..64], p[64..]);
    SecondOutput();
  }

  lemma OneBlock(p: seq<Byte>)
    requires |p| == 64
    ensures Fold(INITIAL, p) == Compress(INITIAL, Words(p))
  {
    assert p[..64] == p && p[64..] == [];
  }

  /** The words of a block in which nothing but the first four bytes and the lowest byte of the length is set. */
  lemma BlockWords(p: seq<Byte>, first: Word, length: Word)
    requires |p| == 64 && WordAt(p, 0) == first && WordAt(p, 56) == length
    requires forall k :: 4 <= k < 64 && !(56 <= k < 60) ==> p[k] == 0
    ensures Block(Words(p), first, length)
  {
    forall n | 0 < n < 16 && n != 14 ensures Words(p)[n] == 0 {
      ZeroWord(p, 4 * n);
    }
  }

  lemma ZeroWord(p: seq<Byte>, i: nat)
    requires i + 4 <= |p| && p[i] == p[i + 1] == p[i + 2] == p[i + 3] == 0
    ensures WordAt(p, i) == 0
  {
  }

  lemma EmptyBlock(p: seq<Byte>)
    requires p == Padded([])
    ensures |p| == 64 && Block(Words(p), 0x00000080, 0)
  {
    ShortPadding([], p, 0);
    ZeroWord(p, 56);
    LowByteWord(p, 0);
    BlockWords(p, 0x80, 0);
  }

  lemma AbcBlock(p: seq<Byte>)
    requires p == Padded([0x61, 0x62, 0x63])
    ensures |p| == 64 && Block(Words(p), 0x80636261, 24)
  {
    ShortPadding([0x61, 0x62, 0x63], p, 24);
    assert p[0] == p[..3][0] && p[1] == p[..3][1] && p[2] == p[..3][2];
    AbcWord(p);
    LowByteWord(p, 56);
    BlockWords(p, 0x80636261, 24);
  }

  lemma AbcWord(p: seq<Byte>)
    requires |p| == 64 && p[0] == 0x61 && p[1] == 0x62 && p[2] == 0x63 && p[3] == 0x80
    ensures WordAt(p, 0) == 0x80636261
  {
  }

  lemma LowByteWord(p: seq<Byte>, i: nat)
    requires i + 4 <= |p| && p[i + 1] == p[i + 2] == p[i + 3] == 0
    ensures WordAt(p, i) == p[i] as Word
  {
  }

  lemma ShortLaid(msg: seq<Byte>, l: seq<Byte>, p: seq<Byte>)
    requires |msg| <= 3 && |l| == 8 && p == msg + [0x80] + Zeros(55 - |msg|) + l
    ensures |p| == 64 && p[..|msg|] == msg && p[|msg|] == 0x80
    ensures forall k :: |msg| < k < 56 ==> p[k] == 0
    ensures forall k :: 56 <= k < 64 ==> p[k] == l[k - 56]
  {
  }

  lemma ShortPadding(msg: seq<Byte>, p: seq<Byte>, length: Byte)
    requires |msg| <= 3 && p == Padded(msg) && ByteNum(length) == 8 * |msg|
    ensures |p| == 64 && p[..|msg|] == msg && p[|msg|] == 0x80 && p[56] == length
    ensures forall k :: |msg| < k < 64 && k != 56 ==> p[k] == 0
  {
    var v := 8 * |msg|;
    ShortDigits(v, 7, LittleEndian(v, 8), length);
    ShortGap(|msg|);
    ShortLaid(msg, LittleEndian(v, 8), p);
  }

  lemma ShortGap(n: nat)
    requires n <= 3
    ensures Gap(n) == 55 - n && 8 * n % 0x1_0000_0000_0000_0000 == 8 * n
  {
  }
}
