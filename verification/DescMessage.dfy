/**
 The message user space writes to ep0 before anything else, as a value: up to three lists
 of descriptors, the OS features, and the choices its flags stand for. __ffs_data_got_descs
 is shown to accept exactly the messages whose fields are allowed, and to keep what they say.
 */
module DescMessage {
  import opened Bytes
  import opened DescWalk
  import opened OsDescs
  import opened DescCodec
  import opened OsCodec
  import opened DescParser
  import opened Bits

  /** The descriptors for full, high and super speed. */
  type Speeds = d: seq<seq<Desc>> | |d| == 3 witness [[], [], []]

  function EncodeSpeeds(d: Speeds, n: nat): seq<byte>
    requires n <= 3
  {
    if n == 0 then [] else EncodeSpeeds(d, n - 1) + EncodeAll(d[n - 1])
  }

  /** Does this speed name an endpoint or an interface? */
  predicate Declares(ds: seq<Desc>) { Addresses(ds) != [] || InterfacesIn(ds) != 0 }

  /**
   From the first speed that declares anything on, every one that has descriptors declares the
   same; 30 endpoints at most.
   */
  ghost predicate SpeedsAgree(d: Speeds) {
    && (forall i :: 0 <= i < 3 ==> |Addresses(d[i])| <= 30)
    && (forall i, j :: 0 <= i <= j < 3 && d[j] != [] && Declares(d[i]) ==>
          Addresses(d[j]) == Addresses(d[i]) && InterfacesIn(d[j]) == InterfacesIn(d[i]))
  }

  ghost predicate SpeedsCanonical(d: Speeds) { forall i :: 0 <= i < 3 ==> AllCanonical(d[i]) }

  ghost predicate SpeedsAllowed(d: Speeds, n: nat)
    requires n <= 3
  {
    forall i :: 0 <= i < n ==> AllAllowed(d[i])
  }

  /** The interfaces of the first n speeds. */
  function InterfacesOf(d: Speeds, n: nat): nat
    requires n <= 3
  {
    if n == 0 then 0 else Max(InterfacesOf(d, n - 1), InterfacesIn(d[n - 1]))
  }

  function StringsOf(d: Speeds, n: nat): nat
    requires n <= 3
  {
    if n == 0 then 0 else Max(StringsOf(d, n - 1), StringsIn(d[n - 1]))
  }

  function CountsOf(d: Speeds): Counts { [|d[0]|, |d[1]|, |d[2]|] }

  /** What the walks over the first n speeds find. */
  ghost predicate SpeedsRead(raw: seq<byte>, d: Speeds, n: nat)
    requires n <= 3
  {
    && SecStart(raw, CountsOf(d), n) == |EncodeSpeeds(d, n)|
    && (forall i :: 0 <= i < n ==> SecDecl(raw, CountsOf(d), i) == Decl(Addresses(d[i]), InterfacesIn(d[i])))
    && StringsNeeded(raw, CountsOf(d), n) == StringsOf(d, n)
  }

  lemma {:induction false} SpeedsOfEncoded(raw: seq<byte>, d: Speeds, n: nat)
    requires n <= 3 && Held(raw, 0, EncodeSpeeds(d, n)) && SpeedsCanonical(d)
    ensures SecStart(raw, CountsOf(d), n) >= 0 <==> SpeedsAllowed(d, n)
    ensures SpeedsAllowed(d, n) ==> SpeedsRead(raw, d, n)
  {
    hide Held, At, AllCanonical, AllAllowed, EncodeAll, Addresses, InterfacesIn, StringsIn, EpAddrs, IntfCount, StrMax;
    if n > 0 {
      HeldParts(raw, 0, EncodeSpeeds(d, n - 1), EncodeAll(d[n - 1]));
      SpeedsOfEncoded(raw, d, n - 1);
      HeldFits(raw, 0, EncodeSpeeds(d, n - 1));
      if SpeedsAllowed(d, n - 1) {
        WalkOfEncoded(raw, |EncodeSpeeds(d, n - 1)|, d[n - 1]);
      }
    }
  }

  lemma AgreementIs(raw: seq<byte>, d: Speeds)
    requires SpeedsRead(raw, d, 3)
    ensures SectionsAgree(raw, CountsOf(d), 3) <==> SpeedsAgree(d)
  {
    hide SecStart, SecDecl, StringsNeeded, Addresses, InterfacesIn, EncodeSpeeds;
    var c := CountsOf(d);
    assert forall i :: 0 <= i < 3 ==> (SecDecl(raw, c, i) != EMPTY <==> Declares(d[i]));
    assert forall i :: 0 <= i < 3 ==> (c[i] > 0 <==> d[i] != []);
    if SectionsAgree(raw, c, 3) {
      forall i, j | 0 <= i <= j < 3 && d[j] != [] && Declares(d[i])
        ensures Addresses(d[j]) == Addresses(d[i]) && InterfacesIn(d[j]) == InterfacesIn(d[i])
      {
        assert SecDecl(raw, c, j) == SecDecl(raw, c, i);
      }
      assert forall i :: 0 <= i < 3 ==> |SecDecl(raw, c, i).eps| < MAX_EPS_COUNT;
    }
  }

  /** What the sections declare as a whole is what each speed that declares anything does. */
  lemma DeclaredIs(raw: seq<byte>, d: Speeds)
    requires SpeedsRead(raw, d, 3) && SectionsAgree(raw, CountsOf(d), 3)
    ensures Declared(raw, CountsOf(d), 3).interfaces == InterfacesOf(d, 3)
    ensures forall i :: 0 <= i < 3 && Declares(d[i]) ==>
              Declared(raw, CountsOf(d), 3) == Decl(Addresses(d[i]), InterfacesIn(d[i]))
    ensures (forall i :: 0 <= i < 3 ==> !Declares(d[i])) ==> Declared(raw, CountsOf(d), 3) == EMPTY
  {
    hide SecStart, SecDecl, StringsNeeded, Addresses, InterfacesIn, EncodeSpeeds, SectionsAgree;
    var c := CountsOf(d);
    DeclaredByAll(raw, c, 3);
    assert forall i :: 0 <= i < 3 ==> (SecDecl(raw, c, i) != EMPTY <==> Declares(d[i]));
    hide Declared;
    assert InterfacesOf(d, 1) == InterfacesIn(d[0]);
    assert InterfacesOf(d, 2) == Max(InterfacesOf(d, 1), InterfacesIn(d[1]));
    assert InterfacesOf(d, 3) == Max(InterfacesOf(d, 2), InterfacesIn(d[2]));
  }

  /** Descriptors and features together are accepted. */
  ghost predicate BodyAllowed(d: Speeds, fs: seq<Feature>) {
    && (d != [[], [], []] || fs != [])
    && SpeedsAllowed(d, 3)
    && SpeedsAgree(d)
    && FeaturesAllowed(fs, |EncodeFeatures(fs)|, InterfacesOf(d, 3))
  }

  lemma BodyDecides(raw: seq<byte>, d: Speeds, fs: seq<Feature>)
    requires raw == EncodeSpeeds(d, 3) + EncodeFeatures(fs) && |raw| < TWO_TO_THE_32
    requires SpeedsCanonical(d) && forall f :: f in fs ==> Proper(f)
    ensures RawOk(raw, CountsOf(d), |fs|) <==> BodyAllowed(d, fs)
    ensures BodyAllowed(d, fs) ==>
              && SpeedsRead(raw, d, 3)
              && OsFound(raw, CountsOf(d), |fs|).Some?
              && FeaturesRead(OsFound(raw, CountsOf(d), |fs|).value, |EncodeSpeeds(d, 3)|, fs)
  {
    hide *;
    HeldWhole(raw);
    HeldParts(raw, 0, EncodeSpeeds(d, 3), EncodeFeatures(fs));
    SpeedsOfEncoded(raw, d, 3);
    NothingEncoded(d, fs);
    SpeedsDecide(raw, d, fs);
    if SpeedsAllowed(d, 3) {
      AgreementIs(raw, d);
      if SpeedsAgree(d) {
        StartOfFeatures(raw, d);
        DeclaredIs(raw, d);
        FeaturesOfEncoded(raw, |EncodeSpeeds(d, 3)|, fs, InterfacesOf(d, 3));
        FeaturesDecide(raw, CountsOf(d), |EncodeSpeeds(d, 3)|, InterfacesOf(d, 3), fs);
        BodyIs(d, fs);
      }
    }
  }

  /** What is not in the sections' hands is refused without them. */
  lemma SpeedsDecide(raw: seq<byte>, d: Speeds, fs: seq<Feature>)
    ensures RawOk(raw, CountsOf(d), |fs|) ==>
              SecStart(raw, CountsOf(d), 3) >= 0 && SectionsAgree(raw, CountsOf(d), 3)
    ensures BodyAllowed(d, fs) ==> SpeedsAllowed(d, 3) && SpeedsAgree(d)
  {
    hide SecStart, SectionsAgree, Features, SpeedsAgree, SpeedsAllowed, FeaturesAllowed, InterfacesOf;
  }

  lemma FeaturesDecide(raw: seq<byte>, c: Counts, start: nat, n: nat, fs: seq<Feature>)
    requires SecStart(raw, c, 3) == start && SectionsAgree(raw, c, 3) && Declared(raw, c, 3).interfaces == n
    requires |raw| == start + |EncodeFeatures(fs)|
    requires var r := Features(raw, start, n, |fs|);
      && (r.Some? <==> FeaturesAllowed(fs, |raw| - start, n))
      && (r.Some? ==> FeaturesRead(r.value, start, fs))
    ensures RawOk(raw, c, |fs|) <==> |raw| > 0 && FeaturesAllowed(fs, |EncodeFeatures(fs)|, n)
    ensures FeaturesAllowed(fs, |EncodeFeatures(fs)|, n) ==>
              OsFound(raw, c, |fs|).Some? && FeaturesRead(OsFound(raw, c, |fs|).value, start, fs)
  {
    hide EncodeFeatures, SecStart, Declared, SectionsAgree, Features, FeaturesAllowed, AllProps, AllIds;
  }

  lemma BodyIs(d: Speeds, fs: seq<Feature>)
    requires SpeedsAllowed(d, 3) && SpeedsAgree(d)
    ensures BodyAllowed(d, fs) <==>
            && (d != [[], [], []] || fs != [])
            && FeaturesAllowed(fs, |EncodeFeatures(fs)|, InterfacesOf(d, 3))
  {
    hide SpeedsAllowed, SpeedsAgree, FeaturesAllowed, EncodeFeatures, InterfacesOf;
  }

  /** Only a message without any is empty. */
  lemma NothingEncoded(d: Speeds, fs: seq<Feature>)
    ensures |EncodeSpeeds(d, 3) + EncodeFeatures(fs)| > 0 <==> d != [[], [], []] || fs != []
  {
    assert EncodeSpeeds(d, 3) == EncodeAll(d[0]) + EncodeAll(d[1]) + EncodeAll(d[2]) by {
      assert EncodeSpeeds(d, 0) == [];
      assert EncodeSpeeds(d, 1) == EncodeAll(d[0]);
      assert EncodeSpeeds(d, 2) == EncodeAll(d[0]) + EncodeAll(d[1]);
    }
    assert forall i :: 0 <= i < 3 ==> (EncodeAll(d[i]) == [] <==> d[i] == []);
    assert EncodeFeatures(fs) == [] <==> fs == [];
    assert d == [d[0], d[1], d[2]];
    hide EncodeAll, EncodeSpeeds, EncodeFeatures;
  }

  // The header.

  /** The flags of the newer format, by name; with eventfd set the message brings a descriptor number. */
  datatype Flags = Flags(full: bool, high: bool, super: bool, os: bool, virtual: bool, eventfd: Option<Word32>,
                         allRecipients: bool, config0: bool)

  /** The older format has no flags: it brings full and high speed. */
  datatype Message = Message(flags: Option<Flags>, speeds: Speeds, features: seq<Feature>)

  function One(b: bool): nat { if b then 1 else 0 }

  function FlagBits(f: Flags): nat {
    One(f.full) + 2 * One(f.high) + 4 * One(f.super) + 8 * One(f.os) + 16 * One(f.virtual) + 32 * One(f.eventfd.Some?)
    + 64 * One(f.allRecipients) + 128 * One(f.config0)
  }

  /** The 32-bit words behind the fixed part: the eventfd, and a count for every flag that announces something. */
  function Words(m: Message): seq<nat> {
    match m.flags
    case None => [|m.speeds[0]|, |m.speeds[1]|]
    case Some(f) =>
      (if f.eventfd.Some? then [f.eventfd.value] else []) + (if f.full then [|m.speeds[0]|] else [])
      + (if f.high then [|m.speeds[1]|] else []) + (if f.super then [|m.speeds[2]|] else [])
      + (if f.os then [|m.features|] else [])
  }

  function EncodeWords(ws: seq<nat>): (s: seq<byte>)
    ensures |s| == 4 * |ws|
  {
    if ws == [] then [] else EncodeWords(ws[..|ws| - 1]) + Bytes4(ws[|ws| - 1])
  }

  function HeadSize(m: Message): nat { (if m.flags.Some? then 12 else 8) + 4 * |Words(m)| }

  function EncodeBody(m: Message): seq<byte> { EncodeSpeeds(m.speeds, 3) + EncodeFeatures(m.features) }

  function EncodeHead(m: Message): (s: seq<byte>)
    ensures |s| == HeadSize(m)
  {
    var length := HeadSize(m) + |EncodeBody(m)|;
    match m.flags
    case None => Bytes4(1) + Bytes4(length) + EncodeWords(Words(m))
    case Some(f) => Bytes4(3) + Bytes4(length) + Bytes4(FlagBits(f)) + EncodeWords(Words(m))
  }

  function EncodeMessage(m: Message): seq<byte> { EncodeHead(m) + EncodeBody(m) }

  /** A message that can be sent: it has only what its flags announce, and its length fits 32 bits. */
  ghost predicate Sendable(m: Message) {
    && |EncodeMessage(m)| < 0x1_0000_0000
    && SpeedsCanonical(m.speeds)
    && (forall f :: f in m.features ==> Proper(f))
    && match m.flags
       case None => m.speeds[2] == [] && m.features == []
       case Some(f) =>
         && (!f.full ==> m.speeds[0] == []) && (!f.high ==> m.speeds[1] == [])
         && (!f.super ==> m.speeds[2] == []) && (!f.os ==> m.features == [])
  }

  /** Its flags as the driver sees them. */
  function BitsOf(m: Message): nat { if m.flags.None? then 3 else FlagBits(m.flags.value) }

  /** Each flag is its bit. */
  lemma BitsAre(f: Flags)
    ensures var b := FlagBits(f);
      && b < 256
      && Bit(b, 1) == One(f.full) && Bit(b, 2) == One(f.high) && Bit(b, 4) == One(f.super) && Bit(b, 8) == One(f.os)
      && Bit(b, 16) == One(f.virtual) && Bit(b, 32) == One(f.eventfd.Some?)
      && Bit(b, 64) == One(f.allRecipients) && Bit(b, 128) == One(f.config0)
  {
    var b0, b1, b2, b3, b4, b5, b6, b7 := One(f.full), One(f.high), One(f.super), One(f.os), One(f.virtual),
      One(f.eventfd.Some?), One(f.allRecipients), One(f.config0);
    EightBits(FlagBits(f), b0, b1, b2, b3, b4, b5, b6, b7);
    hide One, Bit;
  }

  lemma EightBits(b: nat, b0: nat, b1: nat, b2: nat, b3: nat, b4: nat, b5: nat, b6: nat, b7: nat)
    requires b0 <= 1 && b1 <= 1 && b2 <= 1 && b3 <= 1 && b4 <= 1 && b5 <= 1 && b6 <= 1 && b7 <= 1
    requires b == b0 + 2 * b1 + 4 * b2 + 8 * b3 + 16 * b4 + 32 * b5 + 64 * b6 + 128 * b7
    ensures b < 256 && Bit(b, 1) == b0 && Bit(b, 2) == b1 && Bit(b, 4) == b2 && Bit(b, 8) == b3
    ensures Bit(b, 16) == b4 && Bit(b, 32) == b5 && Bit(b, 64) == b6 && Bit(b, 128) == b7
  {
    var h1 := b1 + 2 * b2 + 4 * b3 + 8 * b4 + 16 * b5 + 32 * b6 + 64 * b7;
    var h2 := b2 + 2 * b3 + 4 * b4 + 8 * b5 + 16 * b6 + 32 * b7;
    var h3 := b3 + 2 * b4 + 4 * b5 + 8 * b6 + 16 * b7;
    var h4 := b4 + 2 * b5 + 4 * b6 + 8 * b7;
    var h5 := b5 + 2 * b6 + 4 * b7;
    BitIs(b, 1, 0, b0, h1);
    BitIs(b, 2, b0, b1, h2);
    BitIs(b, 4, b0 + 2 * b1, b2, h3);
    BitIs(b, 8, b0 + 2 * b1 + 4 * b2, b3, h4);
    BitIs(b, 16, b0 + 2 * b1 + 4 * b2 + 8 * b3, b4, h5);
    BitIs(b, 32, b - 32 * h5, b5, b6 + 2 * b7);
    BitIs(b, 64, b - 64 * b6 - 128 * b7, b6, b7);
    BitIs(b, 128, b - 128 * b7, b7, 0);
  }

  lemma BitIs(b: nat, p: nat, low: nat, x: nat, high: nat)
    requires 0 < p && low < p && x <= 1 && b == p * (x + 2 * high) + low
    ensures Bit(b, p) == x
  {
    DivModUnique(b, p, x + 2 * high, low);
  }

  lemma {:induction false} WordAt(ws: seq<nat>, data: seq<byte>, o: nat, i: nat)
    requires Held(data, o, EncodeWords(ws)) && i < |ws| && ws[i] < TWO_TO_THE_32
    ensures o + 4 * i + 4 <= |data| && Le32(data, o + 4 * i) == ws[i]
  {
    var n := |ws| - 1;
    HeldParts(data, o, EncodeWords(ws[..n]), Bytes4(ws[n]));
    if i == n {
      hide Bytes4, Le32;
      HeldFits(data, o + 4 * n, Bytes4(ws[n]));
      HeldFour(data, o + 4 * n, ws[n]);
    } else {
      WordAt(ws[..n], data, o, i);
    }
  }

  lemma {:induction false} EncodeAllLong(ds: seq<Desc>)
    ensures |EncodeAll(ds)| >= 2 * |ds|
  {
    if ds != [] {
      EncodeAllLong(ds[..|ds| - 1]);
    }
  }

  lemma {:induction false} EncodeFeaturesLong(fs: seq<Feature>)
    ensures |EncodeFeatures(fs)| >= 11 * |fs|
  {
    if fs != [] {
      EncodeFeaturesLong(fs[..|fs| - 1]);
    }
  }

  /** So all its counts fit their words. */
  lemma CountsFit(m: Message)
    requires Sendable(m)
    ensures forall i :: 0 <= i < |Words(m)| ==> Words(m)[i] < TWO_TO_THE_32
    ensures |EncodeBody(m)| < TWO_TO_THE_32
  {
    SpeedsLong(m.speeds);
    EncodeFeaturesLong(m.features);
    BodyLength(m);
    hide EncodeMessage, EncodeBody, EncodeSpeeds, EncodeFeatures, SpeedsCanonical, Proper;
  }

  lemma BodyLength(m: Message)
    ensures |EncodeBody(m)| == |EncodeSpeeds(m.speeds, 3)| + |EncodeFeatures(m.features)| <= |EncodeMessage(m)|
  {
    hide EncodeHead, EncodeSpeeds, EncodeFeatures;
  }

  lemma SpeedsLong(d: Speeds)
    ensures |EncodeSpeeds(d, 3)| >= 2 * |d[0]| && |EncodeSpeeds(d, 3)| >= 2 * |d[1]|
    ensures |EncodeSpeeds(d, 3)| >= 2 * |d[2]|
  {
    assert |EncodeSpeeds(d, 1)| == |EncodeAll(d[0])|;
    assert |EncodeSpeeds(d, 2)| == |EncodeSpeeds(d, 1)| + |EncodeAll(d[1])|;
    assert |EncodeSpeeds(d, 3)| == |EncodeSpeeds(d, 2)| + |EncodeAll(d[2])|;
    EncodeAllLong(d[0]);
    EncodeAllLong(d[1]);
    EncodeAllLong(d[2]);
  }

  /** How many things each list of the message has, in the order of their counts. */
  function Count(m: Message, i: nat): nat
    requires i < 4
  {
    if i < 3 then |m.speeds[i]| else |m.features|
  }

  /** The words behind the fixed part are where the driver looks for them. */
  lemma WordsFound(m: Message)
    requires Sendable(m)
    ensures WordsBefore(BitsOf(m), 4) == |Words(m)|
    ensures forall i :: 0 <= i < 4 && Has(BitsOf(m), FLAG_OF_COUNT[i]) ==>
              WordsBefore(BitsOf(m), i) < |Words(m)| && Words(m)[WordsBefore(BitsOf(m), i)] == Count(m, i)
    ensures forall i :: 0 <= i < 4 && !Has(BitsOf(m), FLAG_OF_COUNT[i]) ==> Count(m, i) == 0
    ensures Has(BitsOf(m), EVENTFD) <==> m.flags.Some? && m.flags.value.eventfd.Some?
    ensures BitsOf(m) < KNOWN_FLAGS
  {
    hide EncodeMessage, SpeedsCanonical, Proper;
    match m.flags
    case None => OldWords(m);
    case Some(f) =>
      hide FlagBits, Words;
      BitsAre(f);
      NewWords(m, f);
  }

  lemma OldWords(m: Message)
    requires m.flags.None? && m.speeds[2] == [] && m.features == []
    ensures WordsBefore(3, 4) == |Words(m)|
    ensures forall i :: 0 <= i < 2 ==>
              Has(3, FLAG_OF_COUNT[i]) && WordsBefore(3, i) < |Words(m)| && Words(m)[WordsBefore(3, i)] == Count(m, i)
    ensures !Has(3, 4) && !Has(3, 8) && !Has(3, EVENTFD) && Count(m, 2) == Count(m, 3) == 0
  {
  }

  lemma NewWords(m: Message, f: Flags)
    requires m.flags == Some(f)
    requires var b := BitsOf(m);
      && Bit(b, 1) == One(f.full) && Bit(b, 2) == One(f.high) && Bit(b, 4) == One(f.super) && Bit(b, 8) == One(f.os)
      && Bit(b, 32) == One(f.eventfd.Some?)
    ensures WordsBefore(BitsOf(m), 4) == |Words(m)|
    ensures forall i :: 0 <= i < 4 && Has(BitsOf(m), FLAG_OF_COUNT[i]) ==>
              WordsBefore(BitsOf(m), i) < |Words(m)| && Words(m)[WordsBefore(BitsOf(m), i)] == Count(m, i)
  {
    hide Bit, BitsOf;
  }

  /** The fixed part, where the words behind it begin, and the body behind them. */
  lemma FixedRead(m: Message, data: seq<byte>)
    requires data == EncodeMessage(m) && |data| < TWO_TO_THE_32 && |data| >= 16
    ensures MagicOk(data) && (IsV2(data) <==> m.flags.Some?) && FlagsOf(data) == BitsOf(m)
    ensures Held(data, FixedSize(data), EncodeWords(Words(m)))
    ensures data[HeadSize(m)..] == EncodeBody(m)
  {
    var length := HeadSize(m) + |EncodeBody(m)|;
    assert Held(data, 0, data);
    hide EncodeBody, Bytes4, Le32, EncodeWords, Words, FlagBits;
    HeldParts(data, 0, EncodeHead(m), EncodeBody(m));
    match m.flags
    case None =>
      HeldParts(data, 0, Bytes4(1) + Bytes4(length), EncodeWords(Words(m)));
      HeldParts(data, 0, Bytes4(1), Bytes4(length));
      HeldFour(data, 0, 1);
      HeldFour(data, 4, length);
    case Some(f) =>
      HeldParts(data, 0, Bytes4(3) + Bytes4(length) + Bytes4(FlagBits(f)), EncodeWords(Words(m)));
      HeldParts(data, 0, Bytes4(3) + Bytes4(length), Bytes4(FlagBits(f)));
      HeldParts(data, 0, Bytes4(3), Bytes4(length));
      BitsAre(f);
      HeldFour(data, 0, 3);
      HeldFour(data, 4, length);
      HeldFour(data, 8, FlagBits(f));
  }

  /** The driver reads from the header what the message is made of. */
  lemma HeadRead(m: Message, data: seq<byte>)
    requires Sendable(m) && data == EncodeMessage(m) && |data| >= 16
    ensures HeaderOk(data) && HeaderOf(data) == Header(HeadSize(m), CountsOf(m.speeds), |m.features|, BitsOf(m))
    ensures data[HeadSize(m)..] == EncodeBody(m)
  {
    FixedRead(m, data);
    WordsFound(m);
    CountsFit(m);
    FixedIs(m, data);
    hide *;
    HeldFits(data, FixedSize(data), EncodeWords(Words(m)));
    CountRead(m, data, 0);
    CountRead(m, data, 1);
    CountRead(m, data, 2);
    CountRead(m, data, 3);
    HeaderIs(m, data);
  }

  lemma HeaderIs(m: Message, data: seq<byte>)
    requires |data| >= 16 && MagicOk(data) && FlagsOf(data) == BitsOf(m) < KNOWN_FLAGS
    requires WordsBefore(BitsOf(m), 4) == |Words(m)| && HeadSize(m) == FixedSize(data) + 4 * |Words(m)| <= |data|
    requires CountOf(data, 0) == Count(m, 0) && CountOf(data, 1) == Count(m, 1)
    requires CountOf(data, 2) == Count(m, 2) && CountOf(data, 3) == Count(m, 3)
    ensures HeaderOk(data) && HeaderOf(data) == Header(HeadSize(m), CountsOf(m.speeds), |m.features|, BitsOf(m))
  {
    hide MagicOk, FlagsOf, BitsOf, WordsBefore, Words, FixedSize, CountOf, HeadSize;
  }

  lemma CountRead(m: Message, data: seq<byte>, i: nat)
    requires |data| >= 16 && i < 4 && FlagsOf(data) == BitsOf(m)
    requires Held(data, FixedSize(data), EncodeWords(Words(m)))
    requires forall k :: 0 <= k < |Words(m)| ==> Words(m)[k] < TWO_TO_THE_32
    requires if Has(BitsOf(m), FLAG_OF_COUNT[i])
             then WordsBefore(BitsOf(m), i) < |Words(m)| && Words(m)[WordsBefore(BitsOf(m), i)] == Count(m, i)
             else Count(m, i) == 0
    ensures CountOf(data, i) == Count(m, i)
  {
    hide Words, BitsOf, WordsBefore, Has, Le32, Held, FlagsOf, FixedSize, EncodeWords, Count;
    if Has(BitsOf(m), FLAG_OF_COUNT[i]) {
      WordAt(Words(m), data, FixedSize(data), WordsBefore(BitsOf(m), i));
    }
  }

  lemma FixedIs(m: Message, data: seq<byte>)
    requires |data| >= 16 && (IsV2(data) <==> m.flags.Some?)
    ensures HeadSize(m) == FixedSize(data) + 4 * |Words(m)|
  {
    hide IsV2;
  }

  /** What the fields of a message must satisfy; eventfd is what the descriptor number it brings comes to. */
  ghost predicate MessageAllowed(m: Message, eventfd: int) {
    && BodyAllowed(m.speeds, m.features)
    && (m.flags.Some? && m.flags.value.eventfd.Some? ==> eventfd == 0)
  }

  /** The driver accepts a message, its 16 bytes once there, exactly if its fields are allowed. */
  lemma MessageDecides(m: Message, eventfd: int)
    requires Sendable(m) && |EncodeMessage(m)| >= 16
    ensures Accepts(EncodeMessage(m), eventfd) <==> MessageAllowed(m, eventfd)
  {
    var data := EncodeMessage(m);
    HeadRead(m, data);
    WordsFound(m);
    CountsFit(m);
    hide EncodeMessage, HeaderOk, HeaderOf, BodyAllowed, RawOk, Words, BitsOf, Has;
    BodyDecides(EncodeBody(m), m.speeds, m.features);
  }

  // The other way round: every accepted buffer is such a message.

  /** No descriptor of any speed is shorter than its header. */
  ghost predicate AllWhole(raw: seq<byte>, counts: Counts) {
    forall i :: 0 <= i < 3 && SecStart(raw, counts, i) >= 0 ==> Whole(raw, SecStart(raw, counts, i), counts[i])
  }

  lemma {:induction false} WordsHeld(ws: seq<nat>, data: seq<byte>, o: nat)
    requires o + 4 * |ws| <= |data|
    requires forall i :: 0 <= i < |ws| ==> ws[i] == Le32(data, o + 4 * i)
    ensures Held(data, o, EncodeWords(ws))
  {
    if ws != [] {
      var n := |ws| - 1;
      WordsHeld(ws[..n], data, o);
      Bytes4Written(data, o + 4 * n);
      hide Bytes4, Le32;
      HeldParts(data, o, EncodeWords(ws[..n]), Bytes4(ws[n]));
    }
  }

  lemma SpeedsDecoded(raw: seq<byte>, counts: Counts) returns (d: Speeds)
    requires SecStart(raw, counts, 3) >= 0 && AllWhole(raw, counts)
    ensures CountsOf(d) == counts && SpeedsCanonical(d) && Held(raw, 0, EncodeSpeeds(d, 3))
    ensures SecStart(raw, counts, 3) == |EncodeSpeeds(d, 3)|
  {
    hide At, Held, EncodeAll, AllCanonical, AllAllowed, Whole, EncodeSpeeds;
    var d0 := SpeedDecoded(raw, counts, 0);
    var d1 := SpeedDecoded(raw, counts, 1);
    var d2 := SpeedDecoded(raw, counts, 2);
    d := [d0, d1, d2];
    NoSpeed(raw, counts, d);
    SpeedNext(raw, counts, d, 0);
    SpeedNext(raw, counts, d, 1);
    SpeedNext(raw, counts, d, 2);
  }

  lemma NoSpeed(raw: seq<byte>, counts: Counts, d: Speeds)
    ensures SecStart(raw, counts, 0) == |EncodeSpeeds(d, 0)| && Held(raw, 0, EncodeSpeeds(d, 0))
  {
  }

  lemma SpeedNext(raw: seq<byte>, counts: Counts, d: Speeds, i: nat)
    requires i < 3 && SecStart(raw, counts, i) == |EncodeSpeeds(d, i)| && Held(raw, 0, EncodeSpeeds(d, i))
    requires Held(raw, SecStart(raw, counts, i), EncodeAll(d[i]))
    requires SecStart(raw, counts, i + 1) == SecStart(raw, counts, i) + |EncodeAll(d[i])|
    ensures SecStart(raw, counts, i + 1) == |EncodeSpeeds(d, i + 1)| && Held(raw, 0, EncodeSpeeds(d, i + 1))
  {
    hide SecStart, Held, EncodeAll;
    HeldParts(raw, 0, EncodeSpeeds(d, i), EncodeAll(d[i]));
  }

  lemma SpeedDecoded(raw: seq<byte>, counts: Counts, i: nat) returns (ds: seq<Desc>)
    requires i < 3 && SecStart(raw, counts, 3) >= 0 && AllWhole(raw, counts)
    ensures |ds| == counts[i] && AllCanonical(ds) && 0 <= SecStart(raw, counts, i)
    ensures Held(raw, SecStart(raw, counts, i), EncodeAll(ds))
    ensures SecStart(raw, counts, i + 1) == SecStart(raw, counts, i) + |EncodeAll(ds)|
  {
    hide At, Held, EncodeAll, AllCanonical, AllAllowed, Whole;
    assert SecStart(raw, counts, i + 1) == At(raw, SecStart(raw, counts, i), counts[i]);
    ds := WalkIsEncoded(raw, SecStart(raw, counts, i), counts[i]);
  }

  lemma BodyDecoded(raw: seq<byte>, counts: Counts, osCount: nat) returns (d: Speeds, fs: seq<Feature>)
    requires RawOk(raw, counts, osCount) && AllWhole(raw, counts) && |raw| < TWO_TO_THE_32
    ensures CountsOf(d) == counts && |fs| == osCount && raw == EncodeSpeeds(d, 3) + EncodeFeatures(fs)
    ensures SpeedsCanonical(d) && forall f :: f in fs ==> Proper(f)
  {
    hide At, AllWhole, EncodeSpeeds, EncodeFeatures, Features, SecStart, Declared, SectionsAgree, SpeedsCanonical,
      Proper,
      FeaturesAllowed;
    d := SpeedsDecoded(raw, counts);
    var start := |EncodeSpeeds(d, 3)|;
    fs := FeaturesAreEncoded(raw, start, Declared(raw, counts, 3).interfaces, osCount);
    HeldParts(raw, 0, EncodeSpeeds(d, 3), EncodeFeatures(fs));
    assert raw[0..|raw|] == raw;
  }

  /** The flags with these bits. */
  function FlagsFrom(b: nat, word: Word32): Flags {
    Flags(Bit(b, 1) == 1, Bit(b, 2) == 1, Bit(b, 4) == 1, Bit(b, 8) == 1, Bit(b, 16) == 1,
          if Bit(b, 32) == 1 then Some(word) else None, Bit(b, 64) == 1, Bit(b, 128) == 1)
  }

  lemma FlagsHaveBits(b: nat, word: Word32)
    requires b < KNOWN_FLAGS
    ensures FlagBits(FlagsFrom(b, word)) == b
  {
    hide FlagsFrom;
    BitSum(b);
    OneBit(b, 1);
    OneBit(b, 2);
    OneBit(b, 4);
    OneBit(b, 8);
    OneBit(b, 16);
    OneBit(b, 32);
    OneBit(b, 64);
    OneBit(b, 128);
    hide Bit, One;
    FieldsFrom(b, word);
  }

  lemma FieldsFrom(b: nat, word: Word32)
    ensures var f := FlagsFrom(b, word);
      && f.full == (Bit(b, 1) == 1) && f.high == (Bit(b, 2) == 1) && f.super == (Bit(b, 4) == 1)
      && f.os == (Bit(b, 8) == 1) && f.virtual == (Bit(b, 16) == 1) && f.eventfd.Some? == (Bit(b, 32) == 1)
      && f.allRecipients == (Bit(b, 64) == 1) && f.config0 == (Bit(b, 128) == 1)
  {
    hide Bit;
  }

  lemma OneBit(b: nat, p: nat)
    requires p > 0
    ensures One(Bit(b, p) == 1) == Bit(b, p)
  {
    hide Bit;
  }

  lemma BitSum(b: nat)
    requires b < 256
    ensures b == Bit(b, 1) + 2 * Bit(b, 2) + 4 * Bit(b, 4) + 8 * Bit(b, 8) + 16 * Bit(b, 16) + 32 * Bit(b, 32)
                 + 64 * Bit(b, 64) + 128 * Bit(b, 128)
  {
    HalfBits(b);
    hide Bit;
  }

  lemma HalfBits(b: nat)
    requires b < 256
    ensures b == Bit(b, 1) + 2 * (b / 2) && b / 2 == Bit(b, 2) + 2 * (b / 4) && b / 4 == Bit(b, 4) + 2 * (b / 8)
    ensures b / 8 == Bit(b, 8) + 2 * (b / 16) && b / 16 == Bit(b, 16) + 2 * (b / 32)
    ensures b / 32 == Bit(b, 32) + 2 * (b / 64) && b / 64 == Bit(b, 64) + 2 * (b / 128) && b / 128 == Bit(b, 128)
  {
    HalfBit(b, 1, b / 2);
    HalfBit(b, 2, b / 4);
    HalfBit(b, 4, b / 8);
    HalfBit(b, 8, b / 16);
    HalfBit(b, 16, b / 32);
    HalfBit(b, 32, b / 64);
    HalfBit(b, 64, b / 128);
  }

  lemma HalfBit(b: nat, p: nat, half: nat)
    requires p > 0 && half == b / p / 2
    ensures b / p == Bit(b, p) + 2 * half
  {
  }

  /** The message a buffer is, from its header and the lists in its body. */
  function MessageOf(data: seq<byte>, d: Speeds, fs: seq<Feature>): Message
    requires |data| >= 16
  {
    Message(if IsV2(data) then Some(FlagsFrom(FlagsOf(data), Le32(data, 12))) else None, d, fs)
  }

  lemma WordsAreHeld(data: seq<byte>, d: Speeds, fs: seq<Feature>)
    requires |data| >= 16 && HeaderOk(data)
    requires HeaderOf(data).counts == CountsOf(d) && HeaderOf(data).osCount == |fs|
    ensures var m := MessageOf(data, d, fs);
      && BitsOf(m) == FlagsOf(data)
      && HeadSize(m) == HeaderOf(data).size
      && Held(data, FixedSize(data), EncodeWords(Words(m)))
  {
    hide Le32, Bit;
    var m := MessageOf(data, d, fs);
    if IsV2(data) {
      FlagsHaveBits(FlagsOf(data), Le32(data, 12));
    }
    hide FlagBits;
    MessageWords(data, d, fs);
    WordsHeld(Words(m), data, FixedSize(data));
  }

  lemma MessageWords(data: seq<byte>, d: Speeds, fs: seq<Feature>)
    requires |data| >= 16 && HeaderOk(data)
    requires HeaderOf(data).counts == CountsOf(d) && HeaderOf(data).osCount == |fs|
    ensures var m := MessageOf(data, d, fs);
      && |Words(m)| == WordsBefore(FlagsOf(data), 4)
      && forall i :: 0 <= i < |Words(m)| ==> Words(m)[i] == Le32(data, FixedSize(data) + 4 * i)
  {
    if IsV2(data) {
      CountsListed(data, d, fs);
      hide *;
      V2Words(data, [|d[0]|, |d[1]|, |d[2]|, |fs|], Le32(data, 12));
      WordsListed(data, d, fs);
      MatchedWords(data, Words(MessageOf(data, d, fs)));
    } else {
      V1Words(data, d, fs);
    }
  }

  lemma CountsListed(data: seq<byte>, d: Speeds, fs: seq<Feature>)
    requires |data| >= 16 && HeaderOk(data)
    requires HeaderOf(data).counts == CountsOf(d) && HeaderOf(data).osCount == |fs|
    ensures forall i :: 0 <= i < 4 ==> CountOf(data, i) == [|d[0]|, |d[1]|, |d[2]|, |fs|][i]
  {
    hide CountOf, HeaderOk;
    assert CountsOf(d)[0] == CountOf(data, 0) && CountsOf(d)[1] == CountOf(data, 1);
    assert CountsOf(d)[2] == CountOf(data, 2);
  }

  lemma MatchedWords(data: seq<byte>, ws: seq<nat>)
    requires |data| >= 16 && IsV2(data) && WordsMatch(data, 12, ws)
    ensures FixedSize(data) == 12 && forall i :: 0 <= i < |ws| ==> ws[i] == Le32(data, FixedSize(data) + 4 * i)
  {
    hide IsV2;
  }

  lemma V1Words(data: seq<byte>, d: Speeds, fs: seq<Feature>)
    requires |data| >= 16 && HeaderOk(data) && !IsV2(data)
    requires HeaderOf(data).counts == CountsOf(d) && HeaderOf(data).osCount == |fs|
    ensures var ws := Words(MessageOf(data, d, fs));
      && ws == [Le32(data, 8), Le32(data, 12)]
      && |ws| == WordsBefore(FlagsOf(data), 4)
  {
    hide Le32;
    assert CountsOf(d)[0] == CountOf(data, 0) == Le32(data, 8);
    assert CountsOf(d)[1] == CountOf(data, 1) == Le32(data, 12);
  }

  /** The words a message with flags b brings. */
  function AllWords(b: nat, w: nat, c: seq<nat>): seq<nat>
    requires |c| == 4
  {
    (if Bit(b, 32) == 1 then [w] else []) + (if Bit(b, 1) == 1 then [c[0]] else [])
    + (if Bit(b, 2) == 1 then [c[1]] else []) + (if Bit(b, 4) == 1 then [c[2]] else [])
    + (if Bit(b, 8) == 1 then [c[3]] else [])
  }

  lemma WordsListed(data: seq<byte>, d: Speeds, fs: seq<Feature>)
    requires |data| >= 16 && IsV2(data)
    ensures Words(MessageOf(data, d, fs)) == AllWords(FlagsOf(data), Le32(data, 12), [|d[0]|, |d[1]|, |d[2]|, |fs|])
  {
    hide Le32, Bit, FlagsOf;
  }

  lemma V2Words(data: seq<byte>, c: seq<nat>, w: nat)
    requires |data| >= 16 && HeaderOk(data) && IsV2(data) && |c| == 4 && w == Le32(data, 12)
    requires forall i :: 0 <= i < 4 ==> CountOf(data, i) == c[i]
    ensures WordsMatch(data, 12, AllWords(FlagsOf(data), w, c))
    ensures |AllWords(FlagsOf(data), w, c)| == WordsBefore(FlagsOf(data), 4)
  {
    var b := FlagsOf(data);
    assert FLAG_OF_COUNT[0] == 1 && FLAG_OF_COUNT[1] == 2 && FLAG_OF_COUNT[2] == 4 && FLAG_OF_COUNT[3] == 8;
    hide Le32, Bit, FlagsOf;
    var w0: seq<nat> := if Bit(b, 32) == 1 then [w] else [];
    var w1 := w0 + if Bit(b, 1) == 1 then [c[0]] else [];
    var w2 := w1 + if Bit(b, 2) == 1 then [c[1]] else [];
    var w3 := w2 + if Bit(b, 4) == 1 then [c[2]] else [];
    assert |w0| == WordsBefore(b, 0) && WordsMatch(data, 12, w0);
    CountHeld(data, 0, w0, c[0]);
    CountHeld(data, 1, w1, c[1]);
    CountHeld(data, 2, w2, c[2]);
    CountHeld(data, 3, w3, c[3]);
    hide WordsMatch, HeaderOk;
  }

  lemma CountHeld(data: seq<byte>, i: nat, ws: seq<nat>, x: nat)
    requires |data| >= 16 && HeaderOk(data) && IsV2(data) && i < 4 && x == CountOf(data, i)
    requires WordsMatch(data, 12, ws) && |ws| == WordsBefore(FlagsOf(data), i)
    ensures var bit := Bit(FlagsOf(data), FLAG_OF_COUNT[i]);
      && WordsMatch(data, 12, ws + if bit == 1 then [x] else [])
      && |ws + if bit == 1 then [x] else []| == WordsBefore(FlagsOf(data), i + 1)
  {
    hide Le32, Bit, FlagsOf;
    AnotherWord(data, 12, ws, Bit(FlagsOf(data), FLAG_OF_COUNT[i]), x);
  }

  ghost predicate WordsMatch(data: seq<byte>, o: nat, ws: seq<nat>) {
    && o + 4 * |ws| <= |data|
    && forall i :: 0 <= i < |ws| ==> ws[i] == Le32(data, o + 4 * i)
  }

  lemma AnotherWord(data: seq<byte>, o: nat, ws: seq<nat>, bit: nat, x: nat)
    requires WordsMatch(data, o, ws) && bit <= 1
    requires bit == 1 ==> o + 4 * |ws| + 4 <= |data| && x == Le32(data, o + 4 * |ws|)
    ensures WordsMatch(data, o, ws + if bit == 1 then [x] else [])
    ensures |ws + if bit == 1 then [x] else []| == |ws| + bit
  {
    hide Le32;
  }

  /**
   Every buffer the driver accepts, if none of its descriptors is shorter than its header, is
   a message whose fields are allowed.
   */
  lemma AcceptedIsMessage(data: seq<byte>, eventfd: int) returns (m: Message)
    requires |data| >= 16 && Accepts(data, eventfd)
    requires var h := HeaderOf(data); AllWhole(data[h.size..], h.counts)
    ensures Sendable(m) && EncodeMessage(m) == data && MessageAllowed(m, eventfd)
  {
    var h := HeaderOf(data);
    var raw := data[h.size..];
    HeaderWords(data);
    var d, fs := BodyDecoded(raw, h.counts, h.osCount);
    m := MessageOf(data, d, fs);
    WordsAreHeld(data, d, fs);
    hide *;
    HeadWritten(data, d, fs);
    MessageDecides(m, eventfd);
  }

  lemma HeadWritten(data: seq<byte>, d: Speeds, fs: seq<Feature>)
    requires |data| >= 16 && HeaderOk(data)
    requires HeaderOf(data).counts == CountsOf(d) && HeaderOf(data).osCount == |fs|
    requires data[HeaderOf(data).size..] == EncodeSpeeds(d, 3) + EncodeFeatures(fs)
    requires SpeedsCanonical(d) && forall f :: f in fs ==> Proper(f)
    requires var m := MessageOf(data, d, fs);
      && BitsOf(m) == FlagsOf(data)
      && HeadSize(m) == HeaderOf(data).size
      && Held(data, FixedSize(data), EncodeWords(Words(m)))
    ensures Sendable(MessageOf(data, d, fs)) && EncodeMessage(MessageOf(data, d, fs)) == data
  {
    var m := MessageOf(data, d, fs);
    NewOrOld(data, d, fs);
    OnlyAnnounced(data, d, fs);
    FixedWritten(data, m);
    hide *;
    WholeMessage(data, m, HeadSize(m));
  }

  lemma WholeMessage(data: seq<byte>, m: Message, n: nat)
    requires n <= |data| && EncodeHead(m) == data[..n]
    requires data[n..] == EncodeSpeeds(m.speeds, 3) + EncodeFeatures(m.features)
    requires |data| < 0x1_0000_0000 && SpeedsCanonical(m.speeds) && forall f :: f in m.features ==> Proper(f)
    requires match m.flags
             case None => m.speeds[2] == [] && m.features == []
             case Some(f) =>
               && (!f.full ==> m.speeds[0] == []) && (!f.high ==> m.speeds[1] == [])
               && (!f.super ==> m.speeds[2] == []) && (!f.os ==> m.features == [])
    ensures Sendable(m) && EncodeMessage(m) == data
  {
    hide EncodeHead, EncodeSpeeds, EncodeFeatures, SpeedsCanonical, Proper;
    assert data[..n] + data[n..] == data;
  }

  lemma NewOrOld(data: seq<byte>, d: Speeds, fs: seq<Feature>)
    requires |data| >= 16
    ensures var m := MessageOf(data, d, fs); (m.flags.Some? <==> IsV2(data)) && m.speeds == d && m.features == fs
  {
    hide Le32, Bit, FlagsOf;
  }

  /** What its flags do not announce, the message does not have. */
  lemma OnlyAnnounced(data: seq<byte>, d: Speeds, fs: seq<Feature>)
    requires |data| >= 16 && HeaderOk(data)
    requires HeaderOf(data).counts == CountsOf(d) && HeaderOf(data).osCount == |fs|
    ensures |data| < 0x1_0000_0000
    ensures match MessageOf(data, d, fs).flags
            case None => d[2] == [] && fs == []
            case Some(f) =>
              && (!f.full ==> d[0] == []) && (!f.high ==> d[1] == []) && (!f.super ==> d[2] == [])
              && (!f.os ==> fs == [])
  {
    hide Le32;
    assert |d[0]| == CountOf(data, 0) && |d[1]| == CountOf(data, 1) && |d[2]| == CountOf(data, 2);
    if IsV2(data) {
      hide Bit;
    }
  }

  lemma FixedWritten(data: seq<byte>, m: Message)
    requires |data| >= 16 && HeaderOk(data) && (m.flags.Some? <==> IsV2(data)) && BitsOf(m) == FlagsOf(data)
    requires HeadSize(m) == HeaderOf(data).size && data[HeadSize(m)..] == EncodeBody(m)
    requires Held(data, FixedSize(data), EncodeWords(Words(m)))
    ensures EncodeHead(m) == data[..HeadSize(m)]
  {
    var length := HeadSize(m) + |EncodeBody(m)|;
    assert length == |data|;
    hide EncodeBody, Bytes4, Le32, EncodeWords, Words, FlagBits, Held, Bit;
    FixedIs(m, data);
    match m.flags
    case None =>
      HeldFour(data, 0, 1);
      HeldFour(data, 4, length);
      HeadOfTwo(data, m, length);
    case Some(f) =>
      HeldFour(data, 0, 3);
      HeldFour(data, 4, length);
      HeldFour(data, 8, FlagBits(f));
      HeadOfThree(data, m, f, length);
  }

  lemma HeadOfTwo(data: seq<byte>, m: Message, length: nat)
    requires m.flags.None? && length == HeadSize(m) + |EncodeBody(m)| && HeadSize(m) <= |data|
    requires Held(data, 0, Bytes4(1)) && Held(data, 4, Bytes4(length)) && Held(data, 8, EncodeWords(Words(m)))
    ensures EncodeHead(m) == data[..HeadSize(m)]
  {
    hide EncodeBody, Bytes4, EncodeWords, Words, Held;
    HeldParts(data, 0, Bytes4(1), Bytes4(length));
    HeldParts(data, 0, Bytes4(1) + Bytes4(length), EncodeWords(Words(m)));
    HeldIs(data, 0, EncodeHead(m));
  }

  lemma HeadOfThree(data: seq<byte>, m: Message, f: Flags, length: nat)
    requires m.flags == Some(f) && length == HeadSize(m) + |EncodeBody(m)| && HeadSize(m) <= |data|
    requires Held(data, 0, Bytes4(3)) && Held(data, 4, Bytes4(length)) && Held(data, 8, Bytes4(FlagBits(f)))
    requires Held(data, 12, EncodeWords(Words(m)))
    ensures EncodeHead(m) == data[..HeadSize(m)]
  {
    hide EncodeBody, Bytes4, EncodeWords, Words, Held, FlagBits;
    HeldParts(data, 0, Bytes4(3), Bytes4(length));
    HeldParts(data, 0, Bytes4(3) + Bytes4(length), Bytes4(FlagBits(f)));
    HeldParts(data, 0, Bytes4(3) + Bytes4(length) + Bytes4(FlagBits(f)), EncodeWords(Words(m)));
    HeldIs(data, 0, EncodeHead(m));
  }

  // What is kept of an accepted message.

  function Descs(d: Speeds): seq<Desc> { d[0] + d[1] + d[2] }

  /** What ffs_data has kept of a message, in terms of its fields. */
  ghost predicate Kept(ffs: FfsData, m: Message)
    reads ffs, ffs.addrmap
  {
    && ffs.counts == [|m.speeds[0]|, |m.speeds[1]|, |m.speeds[2]|] && ffs.osCount == |m.features|
    && CountersKept(ffs, m.speeds)
    && Held(ffs.rawDescs, 0, EncodeSpeeds(m.speeds, 3)) && |ffs.rawDescs| == |EncodeBody(m)|
    && SectionKept(ffs, m.features)
  }

  /** The counters and the address map. */
  ghost predicate CountersKept(ffs: FfsData, d: Speeds)
    reads ffs, ffs.addrmap
  {
    && Largest(ffs.stringsCount, Descs(d), StringField)
    && Largest(ffs.interfacesCount, Descs(d), InterfaceField)
    && (forall i :: 0 <= i < 3 && Declares(d[i]) ==>
          ffs.epsCount == |Addresses(d[i])| && AddrMapIs(ffs.addrmap[..], Addresses(d[i])))
    && ((forall i :: 0 <= i < 3 ==> !Declares(d[i])) ==> ffs.epsCount == 0 && AddrMapIs(ffs.addrmap[..], []))
  }

  /** The properties and ids kept are those in the features' fields. */
  ghost predicate SectionKept(ffs: FfsData, fs: seq<Feature>)
    reads ffs
  {
    && SecStart(ffs.rawDescs, ffs.counts, 3) >= 0
    && var f := OsFound(ffs.rawDescs, ffs.counts, ffs.osCount);
    && f.Some? && f.value.props == AllProps(fs) && f.value.ids == AllIds(fs)
    && ffs.propCount == |AllProps(fs)|
  }

  lemma {:induction false} LargestOfBoth(a: nat, b: nat, ds: seq<Desc>, es: seq<Desc>, f: Desc -> nat)
    requires Largest(a, ds, f) && Largest(b, es, f)
    ensures Largest(Max(a, b), ds + es, f)
  {
    if a >= b && a > 0 {
      var d :| d in ds && f(d) == a;
      assert d in ds + es;
    } else if b > 0 {
      var d :| d in es && f(d) == b;
      assert d in ds + es;
    }
  }

  lemma SpeedsLargest(d: Speeds)
    ensures Largest(StringsOf(d, 3), Descs(d), StringField) && Largest(InterfacesOf(d, 3), Descs(d), InterfaceField)
  {
    TheyAreLargest(d[0]);
    TheyAreLargest(d[1]);
    TheyAreLargest(d[2]);
    TotalsAre(d);
    hide Largest, InterfacesIn, StringsIn, InterfacesOf, StringsOf;
    LargestOfBoth(StringsIn(d[0]), StringsIn(d[1]), d[0], d[1], StringField);
    LargestOfBoth(InterfacesIn(d[0]), InterfacesIn(d[1]), d[0], d[1], InterfaceField);
    LargestOfBoth(Max(StringsIn(d[0]), StringsIn(d[1])), StringsIn(d[2]), d[0] + d[1], d[2], StringField);
    LargestOfBoth(Max(InterfacesIn(d[0]), InterfacesIn(d[1])), InterfacesIn(d[2]), d[0] + d[1], d[2], InterfaceField);
  }

  lemma TotalsAre(d: Speeds)
    ensures StringsOf(d, 3) == Max(Max(StringsIn(d[0]), StringsIn(d[1])), StringsIn(d[2]))
    ensures InterfacesOf(d, 3) == Max(Max(InterfacesIn(d[0]), InterfacesIn(d[1])), InterfacesIn(d[2]))
  {
    hide StringsIn, InterfacesIn;
    assert StringsOf(d, 1) == StringsIn(d[0]) && InterfacesOf(d, 1) == InterfacesIn(d[0]);
    assert StringsOf(d, 2) == Max(StringsOf(d, 1), StringsIn(d[1]));
    assert InterfacesOf(d, 2) == Max(InterfacesOf(d, 1), InterfacesIn(d[1]));
  }

  /** Cleaning the OS section leaves the descriptors in front of it as they were sent. */
  lemma SpeedsUncleaned(raw: seq<byte>, d: Speeds, fs: seq<Feature>, compats: seq<nat>)
    requires raw == EncodeSpeeds(d, 3) + EncodeFeatures(fs)
    requires forall i :: 0 <= i < |compats| ==> compats[i] >= |EncodeSpeeds(d, 3)|
    ensures Held(Cleaned(raw, compats), 0, EncodeSpeeds(d, 3))
  {
    hide EncodeSpeeds, EncodeFeatures, Cleaned;
    var n := |EncodeSpeeds(d, 3)|;
    forall i | 0 <= i < n
      ensures Cleaned(raw, compats)[i] == raw[i]
    {
      CleanedAt(raw, compats, i);
    }
    assert Cleaned(raw, compats)[0..n] == raw[0..n];
    assert raw[0..n] == EncodeSpeeds(d, 3);
  }

  /** A state GotDescs leaves for an accepted message has kept what its fields say. */
  lemma AcceptedIsKept(ffs: FfsData, m: Message, eventfd: int)
    requires Sendable(m) && |EncodeMessage(m)| >= 16 && MessageAllowed(m, eventfd) && ffs.Ready()
    requires ffs.counts == CountsOf(m.speeds) && ffs.osCount == |m.features|
    requires var raw := EncodeBody(m);
      && SecStart(raw, ffs.counts, 3) >= 0 && OsFound(raw, ffs.counts, ffs.osCount).Some?
      && ffs.rawDescs == Cleaned(raw, OsFound(raw, ffs.counts, ffs.osCount).value.compats)
      && OsFound(ffs.rawDescs, ffs.counts, ffs.osCount) == OsFound(raw, ffs.counts, ffs.osCount)
    ensures Kept(ffs, m)
  {
    CountsFit(m);
    hide *;
    AllowedBody(m, eventfd);
    CleanedRead(EncodeBody(m), ffs.rawDescs, m.speeds, m.features);
    CountersAreKept(ffs, m.speeds);
    KeptTogether(ffs, m);
  }

  lemma AllowedBody(m: Message, eventfd: int)
    requires MessageAllowed(m, eventfd) && Sendable(m)
    ensures BodyAllowed(m.speeds, m.features) && SpeedsCanonical(m.speeds) && forall f :: f in m.features ==> Proper(f)
    ensures EncodeBody(m) == EncodeSpeeds(m.speeds, 3) + EncodeFeatures(m.features)
  {
    hide BodyAllowed, SpeedsCanonical, Proper, EncodeMessage;
  }

  lemma BodyFound(m: Message, eventfd: int)
    requires Sendable(m) && MessageAllowed(m, eventfd)
    ensures SecStart(EncodeBody(m), CountsOf(m.speeds), 3) >= 0
    ensures OsFound(EncodeBody(m), CountsOf(m.speeds), |m.features|).Some?
  {
    CountsFit(m);
    AllowedBody(m, eventfd);
    hide BodyAllowed, SpeedsCanonical, Proper, EncodeMessage, RawOk, Features, SecStart, EncodeBody, EncodeFeatures,
      EncodeSpeeds;
    BodyDecides(EncodeBody(m), m.speeds, m.features);
  }

  lemma KeptTogether(ffs: FfsData, m: Message)
    requires ffs.Ready() && CountersKept(ffs, m.speeds) && ffs.counts == CountsOf(m.speeds)
    requires ffs.osCount == |m.features| && |ffs.rawDescs| == |EncodeBody(m)|
    requires Held(ffs.rawDescs, 0, EncodeSpeeds(m.speeds, 3)) && SecStart(ffs.rawDescs, ffs.counts, 3) >= 0
    requires var f := OsFound(ffs.rawDescs, ffs.counts, ffs.osCount);
      f.Some? && f.value.props == AllProps(m.features) && f.value.ids == AllIds(m.features)
    ensures Kept(ffs, m)
  {
    hide Features, SecStart, Declared, StringsNeeded, EncodeSpeeds, AllProps, AllIds, CountersKept, EncodeBody, Held,
      NamesLength, DatasLength, RawOk;
  }

  /** The cleaned copy of a body is read as the body is. */
  lemma CleanedRead(raw: seq<byte>, cur: seq<byte>, d: Speeds, fs: seq<Feature>)
    requires raw == EncodeSpeeds(d, 3) + EncodeFeatures(fs) && |raw| < TWO_TO_THE_32
    requires BodyAllowed(d, fs) && SpeedsCanonical(d) && forall f :: f in fs ==> Proper(f)
    requires SecStart(raw, CountsOf(d), 3) >= 0 && OsFound(raw, CountsOf(d), |fs|).Some?
    requires cur == Cleaned(raw, OsFound(raw, CountsOf(d), |fs|).value.compats)
    ensures |cur| == |raw| && SpeedsRead(cur, d, 3) && Held(cur, 0, EncodeSpeeds(d, 3))
    ensures var f := OsFound(raw, CountsOf(d), |fs|).value; f.props == AllProps(fs) && f.ids == AllIds(fs)
  {
    hide *;
    BodyDecides(raw, d, fs);
    var compats := CompatsBehind(raw, d, fs);
    SpeedsUncleaned(raw, d, fs, compats);
    AllowedSpeeds(d, fs);
    SpeedsOfEncoded(cur, d, 3);
    FoundInFields(OsFound(raw, CountsOf(d), |fs|).value, |EncodeSpeeds(d, 3)|, fs);
  }

  lemma FoundInFields(g: Found, start: nat, fs: seq<Feature>)
    requires FeaturesRead(g, start, fs)
    ensures g.props == AllProps(fs) && g.ids == AllIds(fs)
  {
  }

  lemma CompatsBehind(raw: seq<byte>, d: Speeds, fs: seq<Feature>) returns (compats: seq<nat>)
    requires SpeedsRead(raw, d, 3) && SecStart(raw, CountsOf(d), 3) >= 0 && OsFound(raw, CountsOf(d), |fs|).Some?
    ensures compats == OsFound(raw, CountsOf(d), |fs|).value.compats
    ensures forall i :: 0 <= i < |compats| ==> compats[i] >= |EncodeSpeeds(d, 3)|
  {
    hide Declared, Features, EncodeSpeeds;
    compats := OsFound(raw, CountsOf(d), |fs|).value.compats;
    StartOfFeatures(raw, d);
    FeaturesCompats(raw, |EncodeSpeeds(d, 3)|, Declared(raw, CountsOf(d), 3).interfaces, |fs|);
    assert forall i :: 0 <= i < |compats| ==> compats[i] in compats;
  }

  lemma AllowedSpeeds(d: Speeds, fs: seq<Feature>)
    requires BodyAllowed(d, fs)
    ensures SpeedsAllowed(d, 3)
  {
  }

  lemma StartOfFeatures(raw: seq<byte>, d: Speeds)
    requires SpeedsRead(raw, d, 3)
    ensures SecStart(raw, CountsOf(d), 3) == |EncodeSpeeds(d, 3)|
  {
  }

  lemma CountersAreKept(ffs: FfsData, d: Speeds)
    requires ffs.Ready() && ffs.counts == CountsOf(d) && SpeedsRead(ffs.rawDescs, d, 3)
    ensures CountersKept(ffs, d)
  {
    hide Features, SecStart, Declared, StringsNeeded, EncodeSpeeds, Addresses, InterfacesIn, AddrMapIs, SpeedsRead;
    DeclaredIs(ffs.rawDescs, d);
    SpeedsLargest(d);
    NeededStrings(ffs.rawDescs, d);
  }

  lemma NeededStrings(raw: seq<byte>, d: Speeds)
    requires SpeedsRead(raw, d, 3)
    ensures SecStart(raw, CountsOf(d), 3) >= 0 && StringsNeeded(raw, CountsOf(d), 3) == StringsOf(d, 3)
  {
  }

  /**
   The descriptors' case of ffs_ep0_write, on a fresh ffs_data. A message is accepted exactly
   if there are 16 bytes of it and its fields are allowed; what is kept is what they say.
   */
  method WriteDescriptors(ffs: FfsData, data: array<byte>, eventfd: int) returns (r: Outcome<nat>)
    requires data != ffs.addrmap && ffs.Fresh()
    modifies ffs, ffs.addrmap, data
    ensures r.Ok? ==> r.value == data.Length && ffs.Ready()
    ensures forall m :: Sendable(m) && old(data[..]) == EncodeMessage(m) ==>
              && (r.Ok? <==> data.Length >= 16 && MessageAllowed(m, eventfd))
              && (r.Ok? ==> Kept(ffs, m))
  {
    hide *;
    ghost var d := data[..];
    if data.Length < 16 {
      return Err(EINVAL);
    }
    var got := ffs.GotDescs(data, eventfd);
    forall m | Sendable(m) && d == EncodeMessage(m)
      ensures got.Ok? <==> MessageAllowed(m, eventfd)
      ensures got.Ok? ==> Kept(ffs, m)
    {
      MessageDecides(m, eventfd);
      HeadRead(m, d);
      if got.Ok? {
        BodyFound(m, eventfd);
        AcceptedIsKept(ffs, m, eventfd);
      }
    }
    match got
    case Ok(_) => r := Ok(data.Length);
    case Err(e) => r := Err(e);
    case Fault => r := Fault;
  }

  /** One mass storage interface whose name is string 1, at full speed alone and in the older format. */
  const STORAGE := Message(None, [[IntfDesc(0, 0, 0, 8, 6, 0x50, 1)], [], []], [])

  /** It is accepted, and one string is then asked for. */
  lemma StorageNeedsOneString(ffs: FfsData)
    ensures Sendable(STORAGE) && |EncodeMessage(STORAGE)| >= 16 && MessageAllowed(STORAGE, 0)
    ensures Kept(ffs, STORAGE) ==> ffs.stringsCount == ffs.interfacesCount == 1
  {
    var d: Speeds, one := [[IntfDesc(0, 0, 0, 8, 6, 0x50, 1)], [], []], IntfDesc(0, 0, 0, 8, 6, 0x50, 1);
    var ds: seq<Desc> := [];
    assert ds + [one] == [one] == d[0];
    SummariesNext(ds, one);
    OneDescriptor(d, one);
    BodyLength(STORAGE);
    hide SpeedsAgree, EncodeSpeeds, EncodeAll, Addresses, InterfacesIn, InterfacesOf, Encode;
    if Kept(ffs, STORAGE) {
      assert Descs(d) == [one];
      assert one in Descs(d) && StringField(one) == 1 && InterfaceField(one) == 1;
    }
  }

  lemma OneDescriptor(d: Speeds, one: Desc)
    requires d == [[one], [], []] && one.IntfDesc?
    ensures |EncodeSpeeds(d, 3)| == 9 && SpeedsCanonical(d) && SpeedsAllowed(d, 3) && SpeedsAgree(d)
  {
    hide *;
    OneList(one);
    OneLength(d);
    OneSpeed(d);
  }

  lemma OneList(one: Desc)
    requires one.IntfDesc?
    ensures |EncodeAll([one])| == 9 && Addresses([one]) == [] && Addresses([]) == []
    ensures AllCanonical([one]) && AllAllowed([one]) && AllCanonical([]) && AllAllowed([])
  {
    hide Canonical, Encode;
    var none: seq<Desc> := [];
    SummariesNext(none, one);
    assert none + [one] == [one];
    IntfIsCanonical(one);
  }

  lemma IntfIsCanonical(one: Desc)
    requires one.IntfDesc?
    ensures Canonical(one) && |Encode(one)| == 9
  {
  }

  lemma OneSpeed(d: Speeds)
    requires d[1] == [] && d[2] == [] && Addresses(d[0]) == [] && Addresses([]) == []
    requires AllCanonical(d[0]) && AllAllowed(d[0]) && AllCanonical([]) && AllAllowed([])
    ensures SpeedsCanonical(d) && SpeedsAllowed(d, 3) && SpeedsAgree(d)
  {
    hide Addresses, InterfacesIn, AllCanonical, AllAllowed;
  }

  lemma OneLength(d: Speeds)
    requires d[1] == [] && d[2] == []
    ensures |EncodeSpeeds(d, 3)| == |EncodeAll(d[0])|
  {
    assert EncodeAll([]) == [];
    hide EncodeAll;
    assert |EncodeSpeeds(d, 1)| == |EncodeAll(d[0])|;
    assert |EncodeSpeeds(d, 2)| == |EncodeSpeeds(d, 1)|;
  }
}
