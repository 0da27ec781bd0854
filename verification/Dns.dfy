/** DNS messages (section 4.1 of RFC 1035): what the parser makes of what the printer wrote. */
module Dns {
  import opened Bytes
  import opened Options
  import opened Wire
  import opened Codec
  import opened DnsNames

  datatype Header = Header(id: u16, flags: u16, qdCount: u16, anCount: u16, nsCount: u16, arCount: u16)
  datatype Question = Question(name: bytes, qtype: u16, qclass: u16)
  datatype Record = Record(name: bytes, rtype: u16, rclass: u16, ttl: u32, rdLength: u16, rdata: bytes)
  datatype Message = Message(header: Header, questions: seq<Question>, answers: seq<Record>, authorities: seq<Record>, additionals: seq<Record>)

  // ---------- parsing ----------

  function ReadQuestion(data: bytes, off: nat): Outcome<Question> {
    var name := ReadName(data, off, Enough(data));
    if !name.Done? then Failed(name)
    else if name.next + 4 > |data| then Fail
    else Done(Question(name.value, U16(data, name.next), U16(data, name.next + 2)), name.next + 4)
  }

  function ReadRecord(data: bytes, off: nat): Outcome<Record> {
    var name := ReadName(data, off, Enough(data));
    if !name.Done? then Failed(name)
    else
      var o := name.next;
      if o + 10 > |data| then Fail
      else
        var n := U16(data, o + 8);
        if o + 10 + n > |data| then Fail
        else Done(Record(name.value, U16(data, o), U16(data, o + 2), U32(data, o + 4), n, data[o + 10..o + 10 + n]), o + 10 + n)
  }

  function QuestionsOf(data: bytes): nat -> Outcome<Question> { (off: nat) => ReadQuestion(data, off) }
  function RecordsOf(data: bytes): nat -> Outcome<Record> { (off: nat) => ReadRecord(data, off) }

  function ReadHeader(data: bytes): Header
    requires |data| >= 12
  {
    Header(U16(data, 0), U16(data, 2), U16(data, 4), U16(data, 6), U16(data, 8), U16(data, 10))
  }

  /** The message, given how one question and one record are read. */
  function ParseWith(data: bytes, question: nat -> Outcome<Question>, record: nat -> Outcome<Record>): Outcome<Message> {
    if |data| < 12 then Fail
    else
      var h := ReadHeader(data);
      var qs := ReadMany(question, 12, h.qdCount);
      if !qs.Done? then Failed(qs)
      else
        var an := ReadMany(record, qs.next, h.anCount);
        if !an.Done? then Failed(an)
        else
          var ns := ReadMany(record, an.next, h.nsCount);
          if !ns.Done? then Failed(ns)
          else
            var ar := ReadMany(record, ns.next, h.arCount);
            if !ar.Done? then Failed(ar)
            else Done(Message(h, qs.value, an.value, ns.value, ar.value), ar.next)
  }

  function ParseMessage(data: bytes): Outcome<Message> { ParseWith(data, QuestionsOf(data), RecordsOf(data)) }

  // ---------- which names are read ----------

  // Reading n items from `off` on comes to an item at x.
  predicate Reaches<T(!new)>(read: nat -> Outcome<T>, off: nat, n: nat, x: nat)
    decreases n
  {
    n > 0 && (x == off || (read(off).Done? && Reaches(read, read(off).next, n - 1, x)))
  }

  // The reader follows pointers for ever exactly at these offsets.
  ghost predicate StuckAt<T(!new)>(data: bytes, read: nat -> Outcome<T>) {
    forall off: nat :: read(off).Diverges? <==> Revisits(data, off)
  }

  lemma {:induction false} ManyStuck<T(!new)>(data: bytes, read: nat -> Outcome<T>, off: nat, n: nat)
    requires StuckAt(data, read)
    ensures ReadMany(read, off, n).Diverges? <==> exists x: nat :: Reaches(read, off, n, x) && Revisits(data, x)
    decreases n
  {
    if n > 0 {
      if read(off).Done? {
        ManyStuck(data, read, read(off).next, n - 1);
        if x: nat :| Reaches(read, read(off).next, n - 1, x) && Revisits(data, x) {
          assert Reaches(read, off, n, x);
        }
      } else if read(off).Diverges? {
        assert Reaches(read, off, n, off) && Revisits(data, off);
      }
    }
  }

  /** The parser comes to a question or record, and so to a name, at x. */
  predicate NameReached(data: bytes, question: nat -> Outcome<Question>, record: nat -> Outcome<Record>, x: nat) {
    |data| >= 12 &&
    (var h := ReadHeader(data);
     var qs := ReadMany(question, 12, h.qdCount);
     Reaches(question, 12, h.qdCount, x) || (qs.Done? &&
     (var an := ReadMany(record, qs.next, h.anCount);
      Reaches(record, qs.next, h.anCount, x) || (an.Done? &&
      (var ns := ReadMany(record, an.next, h.nsCount);
       Reaches(record, an.next, h.nsCount, x) || (ns.Done? && Reaches(record, ns.next, h.arCount, x)))))))
  }

  lemma ParseStuck(data: bytes, question: nat -> Outcome<Question>, record: nat -> Outcome<Record>)
    requires StuckAt(data, question) && StuckAt(data, record)
    ensures ParseWith(data, question, record).Diverges? <==> exists x: nat :: NameReached(data, question, record, x) && Revisits(data, x)
  {
    if |data| >= 12 {
      var h := ReadHeader(data);
      var qs := ReadMany(question, 12, h.qdCount);
      ManyStuck(data, question, 12, h.qdCount);
      if qs.Done? {
        var an := ReadMany(record, qs.next, h.anCount);
        ManyStuck(data, record, qs.next, h.anCount);
        if an.Done? {
          var ns := ReadMany(record, an.next, h.nsCount);
          ManyStuck(data, record, an.next, h.nsCount);
          if ns.Done? {
            ManyStuck(data, record, ns.next, h.arCount);
          }
        }
      }
    }
  }

  lemma ReadersStuck(data: bytes)
    ensures StuckAt(data, QuestionsOf(data)) && StuckAt(data, RecordsOf(data))
  {
    forall off: nat
      ensures QuestionsOf(data)(off).Diverges? <==> Revisits(data, off)
      ensures RecordsOf(data)(off).Diverges? <==> Revisits(data, off)
    {
      TerminatesIff(data, off);
    }
  }

  /** Parsing fails to terminate if and only if the chain of pointers from some name that it comes to returns
      to a name. */
  lemma ParseDivergesIff(data: bytes)
    ensures ParseMessage(data).Diverges? <==> exists x: nat :: NameReached(data, QuestionsOf(data), RecordsOf(data), x) && Revisits(data, x)
  {
    ReadersStuck(data);
    ParseStuck(data, QuestionsOf(data), RecordsOf(data));
  }

  /** Fourteen bytes are enough: a header that announces one question, and a name that points at itself. */
  lemma SelfPointingQuestion(data: bytes)
    requires data == [0, 0, 0, 0, 0, 1, 0, 0, 0, 0, 0, 0, 0xC0, 12]
    ensures ParseMessage(data).Diverges?
  {
    assert data[4..6] == [0, 1];
    Get2(0, 1);
    assert ReadHeader(data).qdCount == 1;
    assert Hop(data, 12) == Some(12) && Follow(data, 12, 0) == Some(12) && Follow(data, 12, 1) == Some(12);
    assert Revisits(data, 12);
    assert Reaches(QuestionsOf(data), 12, 1, 12);
    assert NameReached(data, QuestionsOf(data), RecordsOf(data), 12);
    ParseDivergesIff(data);
  }

  // ---------- printing ----------

  function EncodeQuestion(q: Question): bytes { EncodeName(q.name) + Put(2, q.qtype) + Put(2, q.qclass) }

  function EncodeRecord(r: Record): bytes {
    EncodeName(r.name) + Put(2, r.rtype) + Put(2, r.rclass) + Put(4, r.ttl) + Put(2, |r.rdata|) + r.rdata
  }

  function EncodeQuestions(): Question -> bytes { q => EncodeQuestion(q) }
  function EncodeRecords(): Record -> bytes { r => EncodeRecord(r) }

  // The counts are those of the lists, cut to 16 bits.
  function EncodeHeader(m: Message): bytes {
    Put(2, m.header.id) + Put(2, m.header.flags) + Put(2, |m.questions|) + Put(2, |m.answers|)
    + Put(2, |m.authorities|) + Put(2, |m.additionals|)
  }

  function SerializeWith(m: Message, question: Question -> bytes, record: Record -> bytes): bytes {
    EncodeHeader(m) + EncodeMany(question, m.questions) + EncodeMany(record, m.answers)
    + EncodeMany(record, m.authorities) + EncodeMany(record, m.additionals)
  }

  function SerializeMessage(m: Message): bytes { SerializeWith(m, EncodeQuestions(), EncodeRecords()) }

  // ---------- one item ----------

  predicate GoodQuestion(q: Question) { Clean(q.name) }

  predicate GoodRecord(r: Record) { Clean(r.name) && r.rdLength == |r.rdata| }

  // From the fields to the item.
  lemma QuestionRead(data: bytes, off: nat, q: Question, o: nat)
    requires o + 4 <= |data| && U16(data, o) == q.qtype && U16(data, o + 2) == q.qclass
    requires ReadBack(ReadName(data, off, Enough(data)), q.name, Clean(q.name), o)
    ensures ReadBack(ReadQuestion(data, off), q, GoodQuestion(q), o + 4)
  {
  }

  lemma {:induction false} QuestionParts(data: bytes, off: nat, q: Question, o: nat)
    requires Has(data, off, EncodeQuestion(q)) && o == off + |EncodeName(q.name)|
    ensures off + |EncodeQuestion(q)| == o + 4 <= |data| && Has(data, off, EncodeName(q.name))
    ensures U16(data, o) == q.qtype && U16(data, o + 2) == q.qclass
    ensures ReadBack(ReadName(data, off, Enough(data)), q.name, Clean(q.name), o)
  {
    ThreePieces(data, off, EncodeName(q.name), Put(2, q.qtype), Put(2, q.qclass));
    Has16(data, o, q.qtype);
    Has16(data, o + 2, q.qclass);
    NameRoundTripIff(data, off, q.name, Enough(data));
  }

  lemma ThreePieces(data: bytes, off: nat, a: bytes, b: bytes, c: bytes)
    requires Has(data, off, a + b + c)
    ensures Has(data, off, a) && Has(data, off + |a|, b) && Has(data, off + |a| + |b|, c)
  {
    HasBoth(data, off, a + b, c);
    HasBoth(data, off, a, b);
  }

  lemma QuestionRoundTrip(data: bytes, off: nat, q: Question)
    requires Has(data, off, EncodeQuestion(q))
    ensures ReadBack(ReadQuestion(data, off), q, GoodQuestion(q), off + |EncodeQuestion(q)|)
  {
    var o := off + |EncodeName(q.name)|;
    QuestionParts(data, off, q, o);
    QuestionRead(data, off, q, o);
  }

  lemma RecordParts(data: bytes, off: nat, r: Record)
    requires Has(data, off, EncodeRecord(r))
    ensures var o := off + |EncodeName(r.name)|;
            && |EncodeRecord(r)| == |EncodeName(r.name)| + 10 + |r.rdata|
            && Has(data, off, EncodeName(r.name)) && Has(data, o, Put(2, r.rtype)) && Has(data, o + 2, Put(2, r.rclass))
            && Has(data, o + 4, Put(4, r.ttl)) && Has(data, o + 8, Put(2, |r.rdata|)) && Has(data, o + 10, r.rdata)
  {
    var name, t, c, l, n := EncodeName(r.name), Put(2, r.rtype), Put(2, r.rclass), Put(4, r.ttl), Put(2, |r.rdata|);
    SixPieces(data, off, name, t, c, l, n, r.rdata);
  }

  lemma SixPieces(data: bytes, off: nat, a: bytes, b: bytes, c: bytes, d: bytes, e: bytes, f: bytes)
    requires Has(data, off, a + b + c + d + e + f)
    ensures Has(data, off, a) && Has(data, off + |a|, b) && Has(data, off + |a| + |b|, c) && Has(data, off + |a| + |b| + |c|, d)
    ensures Has(data, off + |a| + |b| + |c| + |d|, e) && Has(data, off + |a| + |b| + |c| + |d| + |e|, f)
  {
    HasBoth(data, off, a + b + c + d + e, f);
    HasBoth(data, off, a + b + c + d, e);
    HasBoth(data, off, a + b + c, d);
    HasBoth(data, off, a + b, c);
    HasBoth(data, off, a, b);
  }

  lemma FieldsRead(data: bytes, r: Record, o: nat)
    requires Has(data, o, Put(2, r.rtype)) && Has(data, o + 2, Put(2, r.rclass)) && Has(data, o + 4, Put(4, r.ttl))
    requires Has(data, o + 8, Put(2, |r.rdata|))
    ensures o + 10 <= |data| && U16(data, o) == r.rtype && U16(data, o + 2) == r.rclass && U32(data, o + 4) == r.ttl
    ensures U16(data, o + 8) == |r.rdata| % 0x10000
  {
    Has16(data, o, r.rtype);
    Has16(data, o + 2, r.rclass);
    Has32(data, o + 4, r.ttl);
    Has16(data, o + 8, |r.rdata|);
  }

  lemma RecordRead(data: bytes, off: nat, r: Record, o: nat)
    requires o + 10 + |r.rdata| <= |data| && U16(data, o) == r.rtype && U16(data, o + 2) == r.rclass && U32(data, o + 4) == r.ttl
    requires U16(data, o + 8) == |r.rdata| % 0x10000 && data[o + 10..o + 10 + |r.rdata|] == r.rdata
    requires ReadBack(ReadName(data, off, Enough(data)), r.name, Clean(r.name), o)
    ensures ReadBack(ReadRecord(data, off), r, GoodRecord(r), o + 10 + |r.rdata|)
  {
    var got := ReadRecord(data, off);
    assert Clean(r.name) ==> got == Done(Record(r.name, r.rtype, r.rclass, r.ttl, |r.rdata| % 0x10000,
                                           data[o + 10..o + 10 + |r.rdata| % 0x10000]), o + 10 + |r.rdata| % 0x10000);
  }

  lemma RecordRoundTrip(data: bytes, off: nat, r: Record)
    requires Has(data, off, EncodeRecord(r))
    ensures ReadBack(ReadRecord(data, off), r, GoodRecord(r), off + |EncodeRecord(r)|)
  {
    var o := off + |EncodeName(r.name)|;
    RecordParts(data, off, r);
    FieldsRead(data, r, o);
    NameRoundTripIff(data, off, r.name, Enough(data));
    RecordRead(data, off, r, o);
  }

  // ---------- lists ----------

  function GoodQuestions(): Question -> bool { q => GoodQuestion(q) }
  function GoodRecords(): Record -> bool { r => GoodRecord(r) }

  lemma QuestionInverts(data: bytes, x: Question, o: nat)
    ensures InvertsAt(data, QuestionsOf(data), EncodeQuestions(), GoodQuestions(), x, o)
  {
    if Has(data, o, EncodeQuestion(x)) {
      QuestionRoundTrip(data, o, x);
    }
  }

  lemma QuestionsInvert(data: bytes)
    ensures Inverts(data, QuestionsOf(data), EncodeQuestions(), GoodQuestions())
  {
    forall x: Question, o: nat ensures InvertsAt(data, QuestionsOf(data), EncodeQuestions(), GoodQuestions(), x, o) {
      QuestionInverts(data, x, o);
    }
  }

  lemma RecordInverts(data: bytes, x: Record, o: nat)
    ensures InvertsAt(data, RecordsOf(data), EncodeRecords(), GoodRecords(), x, o)
  {
    if Has(data, o, EncodeRecord(x)) {
      RecordRoundTrip(data, o, x);
    }
  }

  lemma RecordsInvert(data: bytes)
    ensures Inverts(data, RecordsOf(data), EncodeRecords(), GoodRecords())
  {
    forall x: Record, o: nat ensures InvertsAt(data, RecordsOf(data), EncodeRecords(), GoodRecords(), x, o) {
      RecordInverts(data, x, o);
    }
  }

  // ---------- the whole message ----------

  /** Counts that fit, clean names, and RDLength fields that tell the length of the data. */
  predicate GoodMessage(m: Message) {
    && GoodSection(GoodQuestions(), m.questions) && GoodSection(GoodRecords(), m.answers)
    && GoodSection(GoodRecords(), m.authorities) && GoodSection(GoodRecords(), m.additionals)
  }

  /** The header with the counts of the lists. */
  function Counted(m: Message): Message {
    m.(header := Header(m.header.id, m.header.flags, |m.questions| % 0x10000, |m.answers| % 0x10000,
                        |m.authorities| % 0x10000, |m.additionals| % 0x10000))
  }

  lemma HeaderRead(data: bytes, m: Message)
    requires Has(data, 0, EncodeHeader(m))
    ensures |EncodeHeader(m)| == 12 && ReadHeader(data) == Counted(m).header
  {
    var a, b, c, d, e, f := Put(2, m.header.id), Put(2, m.header.flags), Put(2, |m.questions|), Put(2, |m.answers|),
                            Put(2, |m.authorities|), Put(2, |m.additionals|);
    HasBoth(data, 0, a + b + c + d + e, f);
    HasBoth(data, 0, a + b + c + d, e);
    HasBoth(data, 0, a + b + c, d);
    HasBoth(data, 0, a + b, c);
    HasBoth(data, 0, a, b);
    Has16(data, 0, m.header.id);
    Has16(data, 2, m.header.flags);
    Has16(data, 4, |m.questions|);
    Has16(data, 6, |m.answers|);
    Has16(data, 8, |m.authorities|);
    Has16(data, 10, |m.additionals|);
  }

  // Where the five pieces are.
  lemma Pieces(data: bytes, h: bytes, q: bytes, a: bytes, n: bytes, r: bytes)
    requires data == h + q + a + n + r
    ensures Has(data, 0, h) && Has(data, |h|, q) && Has(data, |h| + |q|, a) && Has(data, |h| + |q| + |a|, n)
    ensures Has(data, |h| + |q| + |a| + |n|, r) && |data| == |h| + |q| + |a| + |n| + |r|
  {
    assert data[0..|data|] == data;
    HasBoth(data, 0, h + q + a + n, r);
    HasBoth(data, 0, h + q + a, n);
    HasBoth(data, 0, h + q, a);
    HasBoth(data, 0, h, q);
  }

  // From the sections to the message.
  lemma MessageRead(data: bytes, m: Message, question: nat -> Outcome<Question>, record: nat -> Outcome<Record>,
                    o1: nat, o2: nat, o3: nat, end: nat, q: bool, a: bool, n: bool, r: bool)
    requires |data| >= 12 && ReadHeader(data) == Counted(m).header
    requires ReadBack(ReadMany(question, 12, |m.questions| % 0x10000), m.questions, q, o1)
    requires ReadBack(ReadMany(record, o1, |m.answers| % 0x10000), m.answers, a, o2)
    requires ReadBack(ReadMany(record, o2, |m.authorities| % 0x10000), m.authorities, n, o3)
    requires ReadBack(ReadMany(record, o3, |m.additionals| % 0x10000), m.additionals, r, end)
    ensures ReadBack(ParseWith(data, question, record), Counted(m), q && a && n && r, end)
  {
  }

  lemma SectionsToMessage(data: bytes, m: Message, question: nat -> Outcome<Question>, record: nat -> Outcome<Record>,
                          encodeQ: Question -> bytes, encodeR: Record -> bytes, goodQ: Question -> bool, goodR: Record -> bool)
    requires Inverts(data, question, encodeQ, goodQ) && Inverts(data, record, encodeR, goodR)
    requires data == SerializeWith(m, encodeQ, encodeR)
    ensures ReadBack(ParseWith(data, question, record), Counted(m),
                     GoodSection(goodQ, m.questions) && GoodSection(goodR, m.answers)
                     && GoodSection(goodR, m.authorities) && GoodSection(goodR, m.additionals), |data|)
  {
    var q, a, n, r := EncodeMany(encodeQ, m.questions), EncodeMany(encodeR, m.answers), EncodeMany(encodeR, m.authorities), EncodeMany(encodeR, m.additionals);
    Pieces(data, EncodeHeader(m), q, a, n, r);
    HeaderRead(data, m);
    var o1 := 12 + |q|;
    var o2 := o1 + |a|;
    var o3 := o2 + |n|;
    SectionRead(data, question, encodeQ, goodQ, 12, m.questions);
    SectionRead(data, record, encodeR, goodR, o1, m.answers);
    SectionRead(data, record, encodeR, goodR, o2, m.authorities);
    SectionRead(data, record, encodeR, goodR, o3, m.additionals);
    MessageRead(data, m, question, record, o1, o2, o3, |data|, GoodSection(goodQ, m.questions), GoodSection(goodR, m.answers),
                GoodSection(goodR, m.authorities), GoodSection(goodR, m.additionals));
  }

  /** A printed message parses to itself, with the header counting the lists and nothing left over, exactly
      when it is good; any other message is refused or comes back as a different one. */
  lemma MessageRoundTripIff(m: Message)
    ensures var r := ParseMessage(SerializeMessage(m));
            if GoodMessage(m) then r == Done(Counted(m), |SerializeMessage(m)|)
            else r.Done? ==> r.value != Counted(m)
  {
    var data := SerializeMessage(m);
    QuestionsInvert(data);
    RecordsInvert(data);
    SectionsToMessage(data, m, QuestionsOf(data), RecordsOf(data), EncodeQuestions(), EncodeRecords(), GoodQuestions(), GoodRecords());
  }

  // ---------- any data ----------

  function AnyQuestion(): Question -> bool { q => true }
  function Measured(): Record -> bool { (r: Record) => r.rdLength == |r.rdata| }

  lemma ReadersBring(data: bytes)
    ensures Brings(QuestionsOf(data), |data|, AnyQuestion()) && Brings(RecordsOf(data), |data|, Measured())
  {
    forall off: nat | off <= |data|
      ensures ReadQuestion(data, off).Done? ==> off <= ReadQuestion(data, off).next <= |data|
      ensures ReadRecord(data, off).Done? ==> off <= ReadRecord(data, off).next <= |data| && Measured()(ReadRecord(data, off).value)
    {
      PartsInBounds(data, off, Enough(data));
    }
  }

  predicate CleanRecords(items: seq<Record>) { forall k :: 0 <= k < |items| ==> Clean(items[k].name) }

  predicate AllNamesClean(m: Message) {
    && (forall k :: 0 <= k < |m.questions| ==> Clean(m.questions[k].name))
    && CleanRecords(m.answers) && CleanRecords(m.authorities) && CleanRecords(m.additionals)
  }

  lemma ParsedShape(data: bytes, question: nat -> Outcome<Question>, record: nat -> Outcome<Record>, ok: Question -> bool, measured: Record -> bool)
    requires Brings(question, |data|, ok) && Brings(record, |data|, measured) && ParseWith(data, question, record).Done?
    ensures var r := ParseWith(data, question, record);
            && r.next <= |data| && r.value == Counted(r.value) && |r.value.questions| < 0x10000
            && GoodSection(measured, r.value.answers) && GoodSection(measured, r.value.authorities) && GoodSection(measured, r.value.additionals)
  {
    var h := ReadHeader(data);
    ManyBrings(question, |data|, ok, 12, h.qdCount);
    var o1 := ReadMany(question, 12, h.qdCount).next;
    ManyBrings(record, |data|, measured, o1, h.anCount);
    var o2 := ReadMany(record, o1, h.anCount).next;
    ManyBrings(record, |data|, measured, o2, h.nsCount);
    var o3 := ReadMany(record, o2, h.nsCount).next;
    ManyBrings(record, |data|, measured, o3, h.arCount);
  }

  lemma MeasuredGood(items: seq<Record>)
    requires GoodSection(Measured(), items)
    ensures GoodSection(GoodRecords(), items) <==> CleanRecords(items)
  {
    assert forall k :: 0 <= k < |items| ==> Measured()(items[k]) && GoodRecords()(items[k]) == Clean(items[k].name);
  }

  lemma GoodIffClean(m: Message)
    requires |m.questions| < 0x10000 && GoodSection(Measured(), m.answers)
    requires GoodSection(Measured(), m.authorities) && GoodSection(Measured(), m.additionals)
    ensures GoodMessage(m) <==> AllNamesClean(m)
  {
    assert forall k :: 0 <= k < |m.questions| ==> GoodQuestions()(m.questions[k]) == Clean(m.questions[k].name);
    MeasuredGood(m.answers);
    MeasuredGood(m.authorities);
    MeasuredGood(m.additionals);
  }

  /** Any bytes that parse, compressed or not: the lists have the announced lengths, nothing past the end
      was read, and printing the message and parsing that again gives the same message exactly when its
      names are clean. */
  lemma ParsedReprints(data: bytes, m: Message)
    requires ParseMessage(data).Done? && m == ParseMessage(data).value
    ensures ParseMessage(data).next <= |data| && m == Counted(m)
    ensures ParseMessage(SerializeMessage(m)) == Done(m, |SerializeMessage(m)|) <==> AllNamesClean(m)
  {
    ReadersBring(data);
    ParsedShape(data, QuestionsOf(data), RecordsOf(data), AnyQuestion(), Measured());
    GoodIffClean(m);
    MessageRoundTripIff(m);
  }
}
