/** The 128 squarings of x: they bring it back, so that x^(2^128) = x. */
module Orbit {
  import opened Bits
  import opened Field
  import opened Multiplication
  import opened XPowers
  import opened Words
  import opened Squaring
  import ByteWords

  /** x * x^128, the form in which the POLYVAL square of x^i * x^128 is x^(2i) * x^128. */
  const START: word := 0x46000000_00000000_00000000_00000003

  function Squares(n: nat): word
  {
    if n == 0 then START else Square(Squares(n - 1))
  }

  /** One squaring. A caller that names the word lets the operation be evaluated on a constant. */
  lemma Next(n: nat, v: word)
    requires Squares(n) == v
    ensures Squares(n + 1) == Square(v)
  {
    hide Square;
  }

  lemma StartValue()
    ensures Value(START) == GfMul(Power(2, 128), 2)
  {
    hide Num, Shl, GfMul, Power, Xor;
    NumStart();
    PowerOfX128();
    GfMulTwo(LEFT_REDUCE);
    DoubleCases(LEFT_REDUCE);
    StartSum();
  }

  lemma NumStart()
    ensures Num(START) == 0x46 * TWO120 + 3
  {
    hide Shl, Num;
    NumOfE1();
    ShiftEight(0x46);
    ShiftSixteen(0x4600);
    ShiftThirtyTwo(0x4600_0000);
    NumSplit(START);
    ShlAdd(0x46, 8, 16);
    ShlAdd(0x46, 24, 32);
    ShlAdd(0x46, 56, 64);
    TopByte(0x46);
    StartParts();
  }

  lemma StartParts()
    ensures Xor(Shl(0x46, 120), 3) == Shl(0x46, 120) + 3
  {
    hide Shl, Xor;
    assert Shl(1, 120) > 3 by { Powers(); }
    XorDisjoint(120, 0x46, 3);
  }

  /** 0x84 and 0xC2 in the top byte, 2 and 1 in the bottom one */
  lemma StartSum()
    ensures Xor(2 * LEFT_REDUCE - TWO128, LEFT_REDUCE) == 0x46 * TWO120 + 3
  {
    hide Shl, Xor;
    Powers();
    TopByte(0x84);
    TopByte(0xC2);
    TopByte(0x46);
    XorSplit(120, 0x84, 2, 0xC2, 1);
    SmallSums();
  }

  lemma SmallSums()
    ensures Xor(0x84, 0xC2) == 0x46 && Xor(2, 1) == 3
  {
    hide Xor;
    ByteWords.ConstantSum(0x84, 0xC2);
    ByteWords.ConstantSum(2, 1);
  }

  lemma SquaresZero()
    ensures Squares(0) == START
  {
  }

  lemma Orbit8()
    ensures Squares(8) == 0xB72DE83A_A2594E04_678BD6FF_70C1B512
  {
    hide Squares;
    SquaresZero();
    Next(0, 0x46000000_00000000_00000000_00000003);
    Next(1, 0x8C000000_00000000_00000000_00000006);
    Next(2, 0x76000000_00000000_00000000_0000001B);
    Next(3, 0x68000000_00000000_00000000_000001B4);
    Next(4, 0x2C000000_00000000_00000000_0001B456);
    Next(5, 0x32000000_00000000_00000001_B4563DF9);
    Next(6, 0x76000000_00000001_B4563DF9_2EA7081B);
    Next(7, 0x1E563DF9_2EA7081B_4563DF92_EA7081B5);
  }

  lemma Orbit16()
    ensures Squares(16) == 0xC8B542CE_8F979E5D_49A62A60_24074080
  {
    hide Squares;
    Orbit8();
    Next(8, 0xB72DE83A_A2594E04_678BD6FF_70C1B512);
    Next(9, 0x50379EA7_73394744_34EE7DE0_A403E3D5);
    Next(10, 0xBD924ED6_F3D34DBD_62912547_B1BBB76F);
    Next(11, 0x1B2A3847_D541AF2E_C94EE539_2C01B413);
    Next(12, 0xF1805A0F_C6F5F4AE_1475B000_F0032590);
    Next(13, 0x54DF7AF7_850E0055_3A7E5517_9805D716);
    Next(14, 0x21FDC3D4_A0BBB6CD_DB238049_8F78FAC8);
    Next(15, 0x8815185F_EA854D41_76EA35DF_AF09B481);
  }

  lemma Orbit24()
    ensures Squares(24) == 0x4B646E67_3C3BD668_BC040D39_76135280
  {
    hide Squares;
    Orbit16();
    Next(16, 0xC8B542CE_8F979E5D_49A62A60_24074080);
    Next(17, 0x4C117082_3F7BC37C_4741610F_B77461D1);
    Next(18, 0x9E6EF720_CC29826E_1905E5B3_6B2CBA33);
    Next(19, 0xDCF35649_DCA0904C_810E4925_96399A98);
    Next(20, 0xC0D1976E_A5455554_C2096ABB_7235E962);
    Next(21, 0x32B75970_184AEA68_14FC1EC6_98C8483F);
    Next(22, 0x418E0F13_B0E8D1BB_5872FC94_C81492E0);
    Next(23, 0x0D93DAB9_6253D05B_09D0D59E_004426ED);
  }

  lemma Orbit32()
    ensures Squares(32) == 0x7703F6EC_8D53A385_A2A14D78_3F73DE76
  {
    hide Squares;
    Orbit24();
    Next(24, 0x4B646E67_3C3BD668_BC040D39_76135280);
    Next(25, 0x6663B40C_343970AE_5DA12C81_86F16CC0);
    Next(26, 0x099B018C_8074D0D1_B78B472A_CC4488F4);
    Next(27, 0x4E51DBB3_563BAD2F_A4CCA92C_01F0BB77);
    Next(28, 0xC3945DCD_86BC0061_B115AD2F_326D54A5);
    Next(29, 0x8C0A82CF_84B43533_2CD95615_7FFE4394);
    Next(30, 0x7F74CD57_1FFD798A_B8904511_B137BE5B);
    Next(31, 0x1E7BE452_4C6CF2D6_B51E9181_8960F5D0);
  }

  lemma Orbit40()
    ensures Squares(40) == 0x93F556DE_1B32CFAF_AF6DD419_78920E53
  {
    hide Squares;
    Orbit32();
    Next(32, 0x7703F6EC_8D53A385_A2A14D78_3F73DE76);
    Next(33, 0x54CA7F8C_8B592CCA_C6F161E9_E30CF2E0);
    Next(34, 0x7DAB122F_CC7CE989_69EBDB2D_CE3D33EC);
    Next(35, 0xD7486D9B_26104930_5E9BBBF7_308DE185);
    Next(36, 0xE6D8C974_286D6135_E8DE71ED_19E8B79D);
    Next(37, 0x7488BC49_E2AABCD5_67F33D89_E2519E3E);
    Next(38, 0xD972C02C_89F702B0_7DAB51A7_F679FFB0);
    Next(39, 0x4BC600FA_07E3B1C2_C030678E_2804594A);
  }

  lemma Orbit48()
    ensures Squares(48) == 0xCACF5558_20424B90_870AC6F7_AA54B7B5
  {
    hide Squares;
    Orbit40();
    Next(40, 0x93F556DE_1B32CFAF_AF6DD419_78920E53);
    Next(41, 0xAAF32454_1E6A70E7_59DFF441_583EF1B1);
    Next(42, 0xCBD37A0D_04662D31_DEC692E5_D76BE05E);
    Next(43, 0xEA1C95BE_4C0163E4_8F68E54A_25F91888);
    Next(44, 0xC5AE7008_AAA4BB03_9F45881A_57B7A4E0);
    Next(45, 0x21393269_87F081F5_D1BCD840_D8D14BAD);
    Next(46, 0x2226B167_C8168861_2D07B863_9E5768F4);
    Next(47, 0x3B21660E_D93B8F3B_EB69B4EC_B118FE77);
  }

  lemma Orbit56()
    ensures Squares(56) == 0xA0DF9C2B_FE4EBCD7_DE25D43B_C328643E
  {
    hide Squares;
    Orbit48();
    Next(48, 0xCACF5558_20424B90_870AC6F7_AA54B7B5);
    Next(49, 0x8A9ABA22_F5AA5330_99FF85FA_4615DD57);
    Next(50, 0x95236944_5FD98C19_C12A6D9B_9E0A7AF8);
    Next(51, 0xCCB0C17A_87040324_2A7CF936_D2CDE35B);
    Next(52, 0x2A3BD786_9A1A5195_057064DD_09ABD384);
    Next(53, 0x3C19FDAF_4A210D1B_233534BA_3665FB8D);
    Next(54, 0x491ACD96_B1871268_9E953734_884D3BA8);
    Next(55, 0x8068D81B_B481ADC2_15F1DC58_65B829B8);
  }

  lemma Orbit64()
    ensures Squares(64) == 0x56D1557E_DB7B6911_803EF94F_E7DC7CF1
  {
    hide Squares;
    Orbit56();
    Next(56, 0xA0DF9C2B_FE4EBCD7_DE25D43B_C328643E);
    Next(57, 0xFE59FE40_CE2E22F9_73F2DD2C_DE6477B4);
    Next(58, 0x77F8B12C_305B7564_9D5DB760_3EF4C917);
    Next(59, 0xC06E2ACF_5151F578_03A1D333_59C057C8);
    Next(60, 0xB106A9DD_AB209C99_C6923FA1_48E99390);
    Next(61, 0x29BA5951_4AE14CD8_9A15EFD9_7214FA03);
    Next(62, 0xE960CC9B_98831612_48A95DDF_5A4DD946);
    Next(63, 0x7E41E3F9_0FDF4E4D_36D5D448_0E075F3F);
  }

  lemma Orbit72()
    ensures Squares(72) == 0x3DFFFF8B_83ECFC97_35A3A712_C70D6653
  {
    hide Squares;
    Orbit64();
    Next(64, 0x56D1557E_DB7B6911_803EF94F_E7DC7CF1);
    Next(65, 0xF39057A0_D30A4B1E_50F7924B_AEC7CB6A);
    Next(66, 0xA7F72B70_8A505056_6CE6C4FE_9693500B);
    Next(67, 0x22459EA6_40F95F01_991D4844_C6E21162);
    Next(68, 0x7B2753BE_3F04D828_5CBB16EE_1896D92E);
    Next(69, 0xDF9BD229_5ADC0697_ACE7F149_14534123);
    Next(70, 0xBAA58AF7_D16FDA10_529A6CB4_D635841B);
    Next(71, 0x25B53D24_D3008343_1C783A82_C3D820B4);
  }

  lemma Orbit80()
    ensures Squares(80) == 0x9489B1F3_0CFA986D_8D8A44F9_C168B66E
  {
    hide Squares;
    Orbit72();
    Next(72, 0x3DFFFF8B_83ECFC97_35A3A712_C70D6653);
    Next(73, 0x9F92C0DB_E8C7AB80_24BFBE3D_2C6374F1);
    Next(74, 0xD4451724_4C21FFE2_3124EB3B_94B30A6B);
    Next(75, 0x2ACFD505_4ACB48AC_2B0E524D_9F22C75A);
    Next(76, 0xEC2A1A3E_E4F4145C_036C3D4A_74FAB3C5);
    Next(77, 0xFE12D500_A7E37B03_C6E61F0D_FF5CB7ED);
    Next(78, 0x72AB42B7_78B96A6D_4C15238B_C31581C0);
    Next(79, 0x0948E59A_F50AFFE3_33E68E9E_86C5BAF1);
  }

  lemma Orbit88()
    ensures Squares(88) == 0x5C5509A9_2AD26EAB_2C721FF9_9C1CAFB4
  {
    hide Squares;
    Orbit80();
    Next(80, 0x9489B1F3_0CFA986D_8D8A44F9_C168B66E);
    Next(81, 0xE6AD52B6_D13D1F1E_2EF18C1C_B7112712);
    Next(82, 0x5D67863A_A3E8E4BA_8751EE92_C447EA91);
    Next(83, 0xF3CFE3F6_E9D7DC01_20B9687A_D5CFBC07);
    Next(84, 0xF659266E_0D5DCF89_B13EDFDF_4D76A01B);
    Next(85, 0x5E4BD5E0_C11C135C_761C69A0_0FDD41F5);
    Next(86, 0xA1E139EB_EA486188_506B065F_7F24B927);
    Next(87, 0xFDB74F5F_4F5A61CD_24C47D54_423A0552);
  }

  lemma Orbit96()
    ensures Squares(96) == 0x2074AFC6_0BE9E4B6_E82A3BDC_39219AF0
  {
    hide Squares;
    Orbit88();
    Next(88, 0x5C5509A9_2AD26EAB_2C721FF9_9C1CAFB4);
    Next(89, 0x2E74ABFC_09E9445A_376AF0AA_C3B65813);
    Next(90, 0x9E90E44F_A62F22AF_E4E7E810_25829080);
    Next(91, 0x2AE00AB2_D5C89197_430196D2_7D4634D5);
    Next(92, 0xB2269E01_B31D0061_43962E7B_6FD70C6A);
    Next(93, 0xB632BF4D_6E37B29D_14470629_EA6CAF5E);
    Next(94, 0x939A393E_AF4E3F28_3D8B9651_92E636D8);
    Next(95, 0xA6A253B2_3E1830B7_F71073E7_2B844152);
  }

  lemma Orbit104()
    ensures Squares(104) == 0xC700F207_034D369A_F57B0547_E7508E90
  {
    hide Squares;
    Orbit96();
    Next(96, 0x2074AFC6_0BE9E4B6_E82A3BDC_39219AF0);
    Next(97, 0x6FD8926F_CAE9771A_A6FE1148_E725A77E);
    Next(98, 0xB4961341_E8C7CA05_BBF6B954_8087F1C5);
    Next(99, 0x99686165_5F3E4FFF_04C0208F_D02FAEAC);
    Next(100, 0x981D58E0_130964FB_16370236_0DB68AB1);
    Next(101, 0xD29D2F81_FB475AD1_29681410_4CE7AB0E);
    Next(102, 0x812D1809_858B61C3_4909DBA7_8CBA1B6A);
    Next(103, 0xB3404620_2E543DD3_DAFD9678_9DB5015A);
  }

  lemma Orbit112()
    ensures Squares(112) == 0xEB84FF64_FA830B2A_101C040E_D5E81EE9
  {
    hide Squares;
    Orbit104();
    Next(104, 0xC700F207_034D369A_F57B0547_E7508E90);
    Next(105, 0x3A62F89C_1F19FE2F_81B7E7B3_75FF9806);
    Next(106, 0x4395A054_D4F2DD1C_D1A28941_4E66844E);
    Next(107, 0xAA36F49E_3CF14F31_8F5BE637_09CD3D1B);
    Next(108, 0x49BA7280_74A36F84_EF217BCC_74F266B5);
    Next(109, 0xD1C7284D_CD9866CC_AFE60E68_07661E47);
    Next(110, 0x82B751A6_2C2BA309_D04BB073_3DBDE46A);
    Next(111, 0xC2765943_2D4B5EF8_C8F71062_4DB13B1E);
  }

  lemma Orbit120()
    ensures Squares(120) == 0x0DC8106B_CDCAAF3D_C55DB219_93B00FC1
  {
    hide Squares;
    Orbit112();
    Next(112, 0xEB84FF64_FA830B2A_101C040E_D5E81EE9);
    Next(113, 0x268341BE_F549347B_903BC9DD_81ECC79D);
    Next(114, 0x3E1246B9_36D06A5B_4790B985_C9AA8E6A);
    Next(115, 0xF67E9A46_662F77DC_8BC564FF_ECAFA21A);
    Next(116, 0xCAF233E9_B8705A14_15D0D3B7_089A58E5);
    Next(117, 0xFBDFDA66_6861E811_AF30E435_84D6EAA5);
    Next(118, 0x88E33D9F_3AF032C3_86DC5978_179FFE94);
    Next(119, 0x089B110B_B8C219CF_849CCE28_0505895B);
  }

  lemma Orbit128()
    ensures Squares(128) == 0x46000000_00000000_00000000_00000003
  {
    hide Squares;
    Orbit120();
    Next(120, 0x0DC8106B_CDCAAF3D_C55DB219_93B00FC1);
    Next(121, 0xFEE8AFCF_154D1DF6_6315EC0E_443F03F0);
    Next(122, 0x4E7A9F9F_CD91F03E_B52D36F1_6B57F57E);
    Next(123, 0xB153F021_2584033E_890F16F9_D577FDD5);
    Next(124, 0x9FB4536F_3ED9461A_2B6EB8E0_80020A2B);
    Next(125, 0x3B3F1453_CF3FFFFD_75D45146_18638E3A);
    Next(126, 0xF0A28A2B_3CF3CF3E_79E79E7B_EFBEFBEC);
    Next(127, 0x96DB6DB6_DB6DB6D9_24924924_92492490);
  }

  /** The POLYVAL square of x^128 u is x^128 u^2. */
  lemma MontgomerySquare(p: Elem, u: Elem, c: Elem)
    requires GfMul(p, c) == 1
    ensures GfMul(GfMul(GfMul(p, u), GfMul(p, u)), c) == GfMul(p, GfMul(u, u))
  {
    hide GfMul;
    GfMulSwap(p, u, p, u);
    var pp, uu := GfMul(p, p), GfMul(u, u);
    GfMulAssoc(pp, uu, c);
    GfMulComm(uu, c);
    GfMulAssoc(pp, c, uu);
    GfMulAssoc(p, p, c);
    GfMulUnit(p);
  }

  lemma {:induction false} ValueSquares(n: nat)
    ensures Value(Squares(n)) == GfMul(Power(2, 128), Power(2, Shl(1, n)))
  {
    hide GfMul, Power, Value, Square;
    if n == 0 {
      StartValue();
      PowerFirst(2);
    } else {
      ValueSquares(n - 1);
      ValueSquare(Squares(n - 1));
      var e := Shl(1, n - 1);
      XShift(128, 128);
      PowerZero();
      MontgomerySquare(Power(2, 128), Power(2, e), XInv(128));
      PowerAdd(2, e, e);
    }
  }

  lemma PowerFirst(a: Elem)
    ensures Power(a, 1) == a
  {
    assert Power(a, 0) == 1;
    GfMulUnit(a);
  }

  /** A factor x^128 cancels. */
  lemma CancelX128(a: Elem, b: Elem)
    requires GfMul(Power(2, 128), a) == GfMul(Power(2, 128), b)
    ensures a == b
  {
    hide GfMul, Power;
    var p, c := Power(2, 128), XInv(128);
    XShift(128, 128);
    PowerZero();
    GfMulComm(p, c);
    GfMulAssoc(c, p, a);
    GfMulAssoc(c, p, b);
    GfMulUnit(a);
    GfMulUnit(b);
  }

  /** x squared 128 times is x. */
  lemma SquaringsFixX()
    ensures Power(2, TWO128) == 2
  {
    hide GfMul, Power, Value, Squares, Shl;
    Powers();
    Orbit128();
    SquaresZero();
    ValueSquares(128);
    StartValue();
    CancelX128(Power(2, TWO128), 2);
  }
}
