/** The encrypted object as bytes: the schema of packages/seal/src/bcs.ts, what encrypt hands to it and
    what decrypt takes from a parsed object. */
module SealObject {
  import B = Bytes
  import Dem
  import Ibe
  import Seal
  import opened Octets
  import opened Uleb
  import opened Results
  import opened Hex
  import opened BcsSchema
  import opened BcsRoundTrip
  import opened BcsLaws
  import opened BcsWrites

  type ByteString = Dem.ByteString

  // ---------- Bytes of the encryption as bytes of the serialization ----------

  function ToOctets(bytes: ByteString): (r: seq<Byte>)
    ensures |r| == |bytes|
    ensures forall i :: 0 <= i < |r| ==> r[i] == B.FromByte(bytes[i])
  {
    seq(|bytes|, i requires 0 <= i < |bytes| => B.ToFromByte(bytes[i]); B.FromByte(bytes[i]))
  }

  function ToBits(octets: seq<Byte>): (r: ByteString)
    ensures |r| == |octets|
    ensures forall i :: 0 <= i < |r| ==> r[i] == B.ToByte(octets[i])
  {
    seq(|octets|, i requires 0 <= i < |octets| => B.ToByte(octets[i]))
  }

  lemma BitsOfOctets(bytes: ByteString)
    ensures ToBits(ToOctets(bytes)) == bytes
  {
    forall i | 0 <= i < |bytes| ensures ToBits(ToOctets(bytes))[i] == bytes[i] {
      B.ToFromByte(bytes[i]);
    }
  }

  // ---------- The schema ----------

  function AddressInput(v: Value): Value {
    match v
    case Text(text) => (match AddressBytes(text) case Some(bytes) => ByteArray(bytes) case None => Undefined)
    case _ => v
  }

  function AddressOutput(v: Value): Value {
    match v
    case ByteArray(bytes) => Text(AddressText(bytes))
    case _ => v
  }

  /** bcs.Address of packages/typescript/src/bcs/bcs.ts. A text that is no address ends up as a value that
      does not serialize, instead of a throw. */
  function AddressSchema(): Schema {
    Transform(Bytes(ADDRESS_LENGTH), AddressInput, AddressOutput)
  }

  function IdInput(v: Value): Value {
    match v
    case Text(text) => (match FromHex(text) case Some(bytes) => ByteArray(bytes) case None => Undefined)
    case _ => Undefined
  }

  function IdOutput(v: Value): Value {
    match AsBytes(v)
    case Some(bytes) => Text(ToHex(bytes))
    case None => v
  }

  function IdSchema(): Schema {
    Transform(Vector(U8), IdInput, IdOutput)
  }

  function IbeFields(): seq<(string, Schema)> {
    [("nonce", Bytes(96)), ("encryptedShares", Vector(Bytes(32))), ("encryptedRandomness", Bytes(32))]
  }

  function AesFields(): seq<(string, Schema)> {
    [("blob", Vector(U8)), ("aad", OptionOf(Vector(U8)))]
  }

  function HmacFields(): seq<(string, Schema)> {
    [("blob", Vector(U8)), ("aad", OptionOf(Vector(U8))), ("mac", Bytes(32))]
  }

  function IbeVariants(): seq<(string, Option<Schema>)> {
    [("BonehFranklinBLS12381", Some(Struct(IbeFields())))]
  }

  function CiphertextVariants(): seq<(string, Option<Schema>)> {
    [("Aes256Gcm", Some(Struct(AesFields()))), ("Hmac256Ctr", Some(Struct(HmacFields()))),
     ("Plain", Some(Struct([])))]
  }

  function ObjectFields(): (r: seq<(string, Schema)>)
    ensures |r| == 7
  {
    [("version", U8), ("packageId", AddressSchema()), ("id", IdSchema()),
     ("services", Vector(Tuple([AddressSchema(), U8]))), ("threshold", U8),
     ("encryptedShares", Enum(IbeVariants())), ("ciphertext", Enum(CiphertextVariants()))]
  }

  function ObjectSchema(): Schema {
    Struct(ObjectFields())
  }

  // ---------- What encrypt hands to serialize ----------

  function ServiceValues(services: seq<(string, int)>): (r: seq<Value>)
    ensures |r| == |services|
    ensures forall i :: 0 <= i < |r| ==> r[i] == List([Text(services[i].0), Number(services[i].1)])
  {
    seq(|services|, i requires 0 <= i < |services| => List([Text(services[i].0), Number(services[i].1)]))
  }

  function ByteArrays(parts: seq<ByteString>): (r: seq<Value>)
    ensures |r| == |parts| && forall i :: 0 <= i < |r| ==> r[i] == ByteArray(ToOctets(parts[i]))
  {
    seq(|parts|, i requires 0 <= i < |parts| => ByteArray(ToOctets(parts[i])))
  }

  function IbeValues(e: Ibe.IbeEncryptions): seq<Value> {
    [ByteArray(ToOctets(e.nonce)), List(ByteArrays(e.encryptedShares)), ByteArray(ToOctets(e.encryptedRandomness))]
  }

  function CiphertextName(c: Dem.Ciphertext): string {
    match c
    case Aes256Gcm(_, _) => "Aes256Gcm"
    case Hmac256Ctr(_, _, _) => "Hmac256Ctr"
    case Plain => "Plain"
  }

  function CiphertextFields(c: Dem.Ciphertext): seq<(string, Schema)> {
    match c
    case Aes256Gcm(_, _) => AesFields()
    case Hmac256Ctr(_, _, _) => HmacFields()
    case Plain => []
  }

  function CiphertextValues(c: Dem.Ciphertext): (r: seq<Value>)
    ensures |r| == |CiphertextFields(c)|
  {
    match c
    case Aes256Gcm(blob, aad) => [ByteArray(ToOctets(blob)), ByteArray(ToOctets(aad))]
    case Hmac256Ctr(blob, aad, mac) => [ByteArray(ToOctets(blob)), ByteArray(ToOctets(aad)), ByteArray(ToOctets(mac))]
    case Plain => []
  }

  function ObjectValues(sealed: Seal.EncryptedObject): seq<Value> {
    [Number(0), Text(sealed.packageId), Text(sealed.id), List(ServiceValues(sealed.services)),
     Number(sealed.threshold),
     Obj([("BonehFranklinBLS12381", Obj(WithNames(IbeFields(), IbeValues(sealed.encryptedShares)))),
          ("$kind", Text("BonehFranklinBLS12381"))]),
     Obj([(CiphertextName(sealed.ciphertext),
           Obj(WithNames(CiphertextFields(sealed.ciphertext), CiphertextValues(sealed.ciphertext))))])]
  }

  function ObjectValue(sealed: Seal.EncryptedObject): Value {
    Obj(WithNames(ObjectFields(), ObjectValues(sealed)))
  }

  // ---------- What decrypt takes from a parsed object ----------

  function ReadBytes(v: Value): Option<ByteString> {
    match AsBytes(v)
    case Some(bytes) => Some(ToBits(bytes))
    case None => None
  }

  /** Additional data that are absent count as empty. */
  function ReadAad(v: Value): Option<ByteString> {
    if v == Null || v == Undefined then Some([]) else ReadBytes(v)
  }

  function ReadServices(items: seq<Value>): Option<seq<(string, int)>> {
    if items == [] then Some([])
    else
      match (items[0], ReadServices(items[1..]))
      case (List(pair), Some(rest)) =>
        if |pair| == 2 && pair[0].Text? && pair[1].Number? then Some([(pair[0].text, pair[1].n)] + rest) else None
      case _ => None
  }

  function ReadParts(items: seq<Value>): Option<seq<ByteString>> {
    if items == [] then Some([])
    else
      match (ReadBytes(items[0]), ReadParts(items[1..]))
      case (Some(bytes), Some(rest)) => Some([bytes] + rest)
      case _ => None
  }

  function ReadShares(v: Value): Option<Ibe.IbeEncryptions> {
    var e := Entries(Lookup(Entries(v), "BonehFranklinBLS12381"));
    var shares := Lookup(e, "encryptedShares");
    if !shares.List? then None
    else
      match (ReadBytes(Lookup(e, "nonce")), ReadParts(shares.items), ReadBytes(Lookup(e, "encryptedRandomness")))
      case (Some(nonce), Some(parts), Some(randomness)) => Some(Ibe.IbeEncryptions(nonce, parts, randomness))
      case _ => None
  }

  function ReadCiphertext(v: Value): Option<Dem.Ciphertext> {
    var e := Entries(v);
    var aes, hmac, plain := Lookup(e, "Aes256Gcm"), Lookup(e, "Hmac256Ctr"), Lookup(e, "Plain");
    if aes.Obj? then
      match (ReadBytes(Lookup(aes.entries, "blob")), ReadAad(Lookup(aes.entries, "aad")))
      case (Some(blob), Some(aad)) => Some(Dem.Aes256Gcm(blob, aad))
      case _ => None
    else if hmac.Obj? then
      match (ReadBytes(Lookup(hmac.entries, "blob")), ReadAad(Lookup(hmac.entries, "aad")),
             ReadBytes(Lookup(hmac.entries, "mac")))
      case (Some(blob), Some(aad), Some(mac)) => Some(Dem.Hmac256Ctr(blob, aad, mac))
      case _ => None
    else if plain.Obj? then Some(Dem.Plain)
    else None
  }

  /** The parts of a parsed object that decrypt works on; None when one of them is missing. */
  function ReadObject(v: Value): Option<Seal.EncryptedObject> {
    var e := Entries(v);
    var packageId, id, services := Lookup(e, "packageId"), Lookup(e, "id"), Lookup(e, "services");
    var threshold := Lookup(e, "threshold");
    if !packageId.Text? || !id.Text? || !services.List? || !threshold.Number? then None
    else
      match (ReadServices(services.items), ReadShares(Lookup(e, "encryptedShares")),
             ReadCiphertext(Lookup(e, "ciphertext")))
      case (Some(s), Some(shares), Some(ciphertext)) =>
        Some(Seal.EncryptedObject(packageId.text, id.text, s, threshold.n, shares, ciphertext))
      case _ => None
  }

  // ---------- The parsed object ----------

  /** The sizes that the schema fixes, and lengths that the length encoding holds. */
  ghost predicate WellSized(sealed: Seal.EncryptedObject) {
    && 0 <= sealed.threshold < 256
    && |sealed.services| < TWO_31 && (forall i :: 0 <= i < |sealed.services| ==> 0 <= sealed.services[i].1 < 256)
    && WellSizedShares(sealed.encryptedShares) && WellSizedCiphertext(sealed.ciphertext)
  }

  ghost predicate WellSizedShares(e: Ibe.IbeEncryptions) {
    && |e.nonce| == 96 && |e.encryptedRandomness| == 32 && |e.encryptedShares| < TWO_31
    && forall i :: 0 <= i < |e.encryptedShares| ==> |e.encryptedShares[i]| == 32
  }

  ghost predicate WellSizedCiphertext(c: Dem.Ciphertext) {
    match c
    case Aes256Gcm(blob, aad) => |blob| < TWO_31 && |aad| < TWO_31
    case Hmac256Ctr(blob, aad, mac) => |blob| < TWO_31 && |aad| < TWO_31 && |mac| == 32
    case Plain => true
  }

  /** Package and servers are addresses, and the id is hexadecimal text. */
  ghost predicate WellNamed(sealed: Seal.EncryptedObject) {
    && IsAddress(sealed.packageId)
    && FromHex(sealed.id).Some? && |FromHex(sealed.id).value| < TWO_31
    && forall i :: 0 <= i < |sealed.services| ==> IsAddress(sealed.services[i].0)
  }

  function NormalServices(services: seq<(string, int)>): (r: seq<(string, int)>)
    ensures |r| == |services|
    ensures forall i :: 0 <= i < |r| ==> r[i] == (NormalizeAddress(services[i].0), services[i].1)
  {
    seq(|services|, i requires 0 <= i < |services| => (NormalizeAddress(services[i].0), services[i].1))
  }

  /** The object with its addresses and its id in normal form. */
  function Normalized(sealed: Seal.EncryptedObject): Seal.EncryptedObject
    requires FromHex(sealed.id).Some?
  {
    sealed.(packageId := NormalizeAddress(sealed.packageId), id := ToHex(FromHex(sealed.id).value),
            services := NormalServices(sealed.services))
  }

  /** Parsed byte lists are lists of numbers. */
  function ParsedCiphertextValues(c: Dem.Ciphertext): (r: seq<Value>)
    ensures |r| == |CiphertextFields(c)|
  {
    match c
    case Aes256Gcm(blob, aad) => [List(NumbersOf(ToOctets(blob))), List(NumbersOf(ToOctets(aad)))]
    case Hmac256Ctr(blob, aad, mac) =>
      [List(NumbersOf(ToOctets(blob))), List(NumbersOf(ToOctets(aad))), ByteArray(ToOctets(mac))]
    case Plain => []
  }

  function ParsedValues(sealed: Seal.EncryptedObject): (r: seq<Value>)
    requires FromHex(sealed.id).Some?
    ensures |r| == 7
  {
    var n := Normalized(sealed);
    [Number(0), Text(n.packageId), Text(n.id), List(ServiceValues(n.services)), Number(n.threshold),
     EnumValue("BonehFranklinBLS12381", Obj(WithNames(IbeFields(), IbeValues(n.encryptedShares)))),
     EnumValue(CiphertextName(n.ciphertext),
               Obj(WithNames(CiphertextFields(n.ciphertext), ParsedCiphertextValues(n.ciphertext))))]
  }

  function ParsedValue(sealed: Seal.EncryptedObject): Value
    requires FromHex(sealed.id).Some?
  {
    Obj(WithNames(ObjectFields(), ParsedValues(sealed)))
  }

  // ---------- Serializing ----------

  lemma AddressWrites(env: Environment, fuel: nat, text: string)
    requires IsAddress(text)
    ensures Writes(env, fuel, AddressSchema(), Text(text), Text(NormalizeAddress(text)))
  {
    hide Writes, AddressBytes, AddressText, NormalizeAddress;
    var bytes := AddressBytes(text).value;
    BytesWrite(env, fuel, bytes);
    TransformWrites(env, fuel, AddressSchema(), Text(text), ByteArray(bytes));
    AddressComesBack(text);
  }

  lemma IdWrites(env: Environment, fuel: nat, text: string)
    requires FromHex(text).Some? && |FromHex(text).value| < TWO_31
    ensures Writes(env, fuel, IdSchema(), Text(text), Text(ToHex(FromHex(text).value)))
  {
    hide Writes, FromHex, ToHex;
    var bytes := FromHex(text).value;
    NumbersAreBytes(bytes);
    var schema := IdSchema();
    assert AsBytes(List(NumbersOf(bytes))) == Some(bytes);
    assert schema.input(Text(text)) == ByteArray(bytes) && schema.output(List(NumbersOf(bytes))) == Text(ToHex(bytes));
    hide NumbersOf, AsBytes;
    ByteListWrites(env, fuel, bytes);
    TransformWrites(env, fuel, IdSchema(), Text(text), List(NumbersOf(bytes)));
  }

  lemma {:induction false} NumbersAreBytes(bytes: seq<Byte>)
    ensures NumbersAsBytes(NumbersOf(bytes)) == Some(bytes)
  {
    if bytes != [] {
      NumbersAreBytes(bytes[1..]);
      assert NumbersOf(bytes)[1..] == NumbersOf(bytes[1..]) && bytes == [bytes[0]] + bytes[1..];
    }
  }

  lemma ServicesWrite(env: Environment, fuel: nat, services: seq<(string, int)>)
    requires |services| < TWO_31
    requires forall i :: 0 <= i < |services| ==> IsAddress(services[i].0) && 0 <= services[i].1 < 256
    ensures Writes(env, fuel, Vector(Tuple([AddressSchema(), U8])), List(ServiceValues(services)),
                   List(ServiceValues(NormalServices(services))))
  {
    hide Writes, AddressSchema, IsAddress;
    var pair := Tuple([AddressSchema(), U8]);
    forall i | 0 <= i < |services|
      ensures Writes(env, fuel, pair, ServiceValues(services)[i], ServiceValues(NormalServices(services))[i])
    {
      var (text, index) := services[i];
      AddressWrites(env, fuel, text);
      ByteWrites(env, fuel, index);
      PairWrites(env, fuel, AddressSchema(), U8, Text(text), Number(index), Text(NormalizeAddress(text)),
                 Number(index));
    }
    VectorWrites(env, fuel, pair, List(ServiceValues(services)), ServiceValues(NormalServices(services)));
  }

  lemma FieldNames()
    ensures DistinctNames(ObjectFields()) && DistinctNames(IbeFields())
    ensures DistinctNames(AesFields()) && DistinctNames(HmacFields())
  {
  }

  lemma SharesWrite(env: Environment, fuel: nat, e: Ibe.IbeEncryptions)
    requires WellSizedShares(e)
    ensures Writes(env, fuel, Struct(IbeFields()), Obj(WithNames(IbeFields(), IbeValues(e))),
                   Obj(WithNames(IbeFields(), IbeValues(e))))
  {
    hide Writes, WithNames, DistinctNames;
    FieldNames();
    BytesWrite(env, fuel, ToOctets(e.nonce));
    BytesWrite(env, fuel, ToOctets(e.encryptedRandomness));
    var parts := ByteArrays(e.encryptedShares);
    forall i | 0 <= i < |parts|
      ensures Writes(env, fuel, Bytes(32), Items(List(parts)).value[i], parts[i])
    {
      BytesWrite(env, fuel, ToOctets(e.encryptedShares[i]));
    }
    VectorWrites(env, fuel, Bytes(32), List(parts), parts);
    NamedWrites(env, fuel, IbeFields(), IbeValues(e), IbeValues(e));
  }

  lemma CiphertextFieldsWrite(env: Environment, fuel: nat, c: Dem.Ciphertext)
    requires WellSizedCiphertext(c)
    ensures Writes(env, fuel, Struct(CiphertextFields(c)), Obj(WithNames(CiphertextFields(c), CiphertextValues(c))),
                   Obj(WithNames(CiphertextFields(c), ParsedCiphertextValues(c))))
  {
    hide Writes, WithNames, DistinctNames, OptionOf;
    FieldNames();
    if !c.Plain? {
      ByteListWrites(env, fuel, ToOctets(c.blob));
      ByteListWrites(env, fuel, ToOctets(c.aad));
      SomeWrites(env, fuel, Vector(U8), ByteArray(ToOctets(c.aad)), List(NumbersOf(ToOctets(c.aad))));
      if c.Hmac256Ctr? {
        BytesWrite(env, fuel, ToOctets(c.mac));
      }
    } else {
      assert DistinctNames(CiphertextFields(c)) by {
        NoNames();
      }
    }
    NamedWrites(env, fuel, CiphertextFields(c), CiphertextValues(c), ParsedCiphertextValues(c));
  }

  lemma NoNames()
    ensures DistinctNames<Schema>([])
  {
  }

  /** Where a variant of the ciphertext and of the encrypted shares is found. */
  lemma VariantNames(c: Dem.Ciphertext)
    ensures HasVariant(IbeVariants(), "BonehFranklinBLS12381") && !HasVariant(IbeVariants(), "$kind")
    ensures IndexOf(IbeVariants(), "BonehFranklinBLS12381") == 0
    ensures HasVariant(CiphertextVariants(), CiphertextName(c)) && !HasVariant(CiphertextVariants(), "$kind")
    ensures CiphertextVariants()[IndexOf(CiphertextVariants(), CiphertextName(c))].1
         == Some(Struct(CiphertextFields(c)))
  {
    var v := CiphertextVariants();
    assert v[1..] == [v[1], v[2]] && v[1..][1..] == [v[2]] && v[1..][1..][1..] == [];
    hide AesFields, HmacFields;
    assert IbeVariants()[1..] == [];
    assert IndexOf(v[1..][1..], CiphertextName(c)) <= 1;
  }

  lemma CiphertextWrites(env: Environment, fuel: nat, c: Dem.Ciphertext)
    requires WellSizedCiphertext(c)
    ensures Writes(env, fuel, Enum(CiphertextVariants()),
                   Obj([(CiphertextName(c), Obj(WithNames(CiphertextFields(c), CiphertextValues(c))))]),
                   EnumValue(CiphertextName(c), Obj(WithNames(CiphertextFields(c), ParsedCiphertextValues(c)))))
  {
    CiphertextFieldsWrite(env, fuel, c);
    VariantNames(c);
    hide Writes, WithNames, IndexOf, HasVariant, CiphertextName, CiphertextFields, CiphertextValues,
         ParsedCiphertextValues, AesFields, HmacFields, EnumValue;
    var payload := Obj(WithNames(CiphertextFields(c), CiphertextValues(c)));
    EnumWrites(env, fuel, CiphertextVariants(), [(CiphertextName(c), payload)], CiphertextName(c), payload,
               Obj(WithNames(CiphertextFields(c), ParsedCiphertextValues(c))));
  }

  lemma EncryptionsWrite(env: Environment, fuel: nat, e: Ibe.IbeEncryptions)
    requires WellSizedShares(e)
    ensures var fields := Obj(WithNames(IbeFields(), IbeValues(e)));
            Writes(env, fuel, Enum(IbeVariants()),
                   Obj([("BonehFranklinBLS12381", fields), ("$kind", Text("BonehFranklinBLS12381"))]),
                   EnumValue("BonehFranklinBLS12381", fields))
  {
    SharesWrite(env, fuel, e);
    VariantNames(Dem.Plain);
    var fields := Obj(WithNames(IbeFields(), IbeValues(e)));
    hide Writes, WithNames, IndexOf, HasVariant, IbeFields, IbeValues, EnumValue;
    EnumWrites(env, fuel, IbeVariants(),
               [("BonehFranklinBLS12381", fields), ("$kind", Text("BonehFranklinBLS12381"))],
               "BonehFranklinBLS12381", fields, fields);
  }

  lemma ObjectWrites(env: Environment, fuel: nat, sealed: Seal.EncryptedObject)
    requires WellSized(sealed) && WellNamed(sealed)
    ensures Writes(env, fuel, ObjectSchema(), ObjectValue(sealed), ParsedValue(sealed))
  {
    hide Writes, WithNames, DistinctNames, IbeVariants, CiphertextVariants, CiphertextName, CiphertextFields,
         CiphertextValues, ParsedCiphertextValues, IbeFields, IbeValues, AddressSchema, IdSchema, EnumValue, IsAddress,
         FromHex, ToHex, NormalizeAddress, WellSizedShares, WellSizedCiphertext;
    FieldNames();
    ByteWrites(env, fuel, 0);
    AddressWrites(env, fuel, sealed.packageId);
    IdWrites(env, fuel, sealed.id);
    ServicesWrite(env, fuel, sealed.services);
    ByteWrites(env, fuel, sealed.threshold);
    EncryptionsWrite(env, fuel, sealed.encryptedShares);
    CiphertextWrites(env, fuel, sealed.ciphertext);
    NamedWrites(env, fuel, ObjectFields(), ObjectValues(sealed), ParsedValues(sealed));
  }

  // ---------- Reading the parsed object ----------

  lemma ReadsArray(bytes: ByteString)
    ensures ReadBytes(ByteArray(ToOctets(bytes))) == Some(bytes)
  {
    BitsOfOctets(bytes);
  }

  lemma ReadsNumbers(bytes: ByteString)
    ensures ReadBytes(List(NumbersOf(ToOctets(bytes)))) == Some(bytes)
  {
    BitsOfOctets(bytes);
    NumbersAreBytes(ToOctets(bytes));
  }

  lemma {:induction false} ReadsServices(services: seq<(string, int)>)
    ensures ReadServices(ServiceValues(services)) == Some(services)
  {
    if services != [] {
      ReadsServices(services[1..]);
      assert ServiceValues(services)[1..] == ServiceValues(services[1..]);
      assert services == [(services[0].0, services[0].1)] + services[1..];
    }
  }

  lemma {:induction false} ReadsParts(parts: seq<ByteString>)
    ensures ReadParts(ByteArrays(parts)) == Some(parts)
  {
    hide ToOctets, ReadBytes;
    if parts != [] {
      ReadsParts(parts[1..]);
      ReadsArray(parts[0]);
      assert ByteArrays(parts)[1..] == ByteArrays(parts[1..]) && parts == [parts[0]] + parts[1..];
    }
  }

  /** The entries of a variant that was read: its payload under its name, and nothing under others. */
  lemma VariantEntries(name: string, payload: Value, other: string)
    requires name != "$kind" && other != "$kind" && payload.Obj?
    ensures Lookup(Entries(EnumValue(name, payload)), other) == if other == name then payload else Undefined
  {
    var entries := [(name, payload), ("$kind", Text(name))];
    assert EnumValue(name, payload) == Obj(entries);
    var rest := entries[1..];
    assert rest == [("$kind", Text(name))] && rest[1..] == [];
    assert Lookup(rest[1..], other) == Undefined && Lookup(rest, other) == Undefined;
  }

  lemma ReadsShares(e: Ibe.IbeEncryptions)
    ensures ReadShares(EnumValue("BonehFranklinBLS12381", Obj(WithNames(IbeFields(), IbeValues(e))))) == Some(e)
  {
    var fields, values := IbeFields(), IbeValues(e);
    FieldNames();
    VariantEntries("BonehFranklinBLS12381", Obj(WithNames(fields, values)), "BonehFranklinBLS12381");
    hide Lookup, WithNames, DistinctNames, EnumValue, ReadBytes, ReadParts;
    NamedLookup(fields, values, 0);
    NamedLookup(fields, values, 1);
    NamedLookup(fields, values, 2);
    ReadsArray(e.nonce);
    ReadsParts(e.encryptedShares);
    ReadsArray(e.encryptedRandomness);
  }

  lemma ReadsCiphertext(c: Dem.Ciphertext)
    ensures var fields := CiphertextFields(c);
            ReadCiphertext(EnumValue(CiphertextName(c), Obj(WithNames(fields, ParsedCiphertextValues(c))))) == Some(c)
  {
    var fields, values := CiphertextFields(c), ParsedCiphertextValues(c);
    var payload := Obj(WithNames(fields, values));
    FieldNames();
    VariantEntries(CiphertextName(c), payload, "Aes256Gcm");
    VariantEntries(CiphertextName(c), payload, "Hmac256Ctr");
    VariantEntries(CiphertextName(c), payload, "Plain");
    hide Lookup, WithNames, DistinctNames, EnumValue, ReadBytes;
    if !c.Plain? {
      NamedLookup(fields, values, 0);
      NamedLookup(fields, values, 1);
      ReadsNumbers(c.blob);
      ReadsNumbers(c.aad);
      if c.Hmac256Ctr? {
        NamedLookup(fields, values, 2);
        ReadsArray(c.mac);
      }
    }
  }

  /** A ciphertext whose additional data are absent, as another encoder may send it, is one with empty
      additional data. */
  lemma AbsentAadIsEmpty(blob: ByteString, mac: ByteString, absent: Value)
    requires absent == Null || absent == Undefined
    ensures ReadCiphertext(EnumValue("Aes256Gcm", Obj(WithNames(AesFields(), [ByteArray(ToOctets(blob)), absent]))))
            == Some(Dem.Aes256Gcm(blob, []))
    ensures ReadCiphertext(EnumValue("Hmac256Ctr",
                Obj(WithNames(HmacFields(), [ByteArray(ToOctets(blob)), absent, ByteArray(ToOctets(mac))]))))
            == Some(Dem.Hmac256Ctr(blob, [], mac))
  {
    var aes, hmac := [ByteArray(ToOctets(blob)), absent], [ByteArray(ToOctets(blob)), absent, ByteArray(ToOctets(mac))];
    FieldNames();
    VariantEntries("Aes256Gcm", Obj(WithNames(AesFields(), aes)), "Aes256Gcm");
    VariantEntries("Hmac256Ctr", Obj(WithNames(HmacFields(), hmac)), "Aes256Gcm");
    VariantEntries("Hmac256Ctr", Obj(WithNames(HmacFields(), hmac)), "Hmac256Ctr");
    hide Lookup, WithNames, DistinctNames, EnumValue, ReadBytes;
    NamedLookup(AesFields(), aes, 0);
    NamedLookup(AesFields(), aes, 1);
    NamedLookup(HmacFields(), hmac, 0);
    NamedLookup(HmacFields(), hmac, 1);
    NamedLookup(HmacFields(), hmac, 2);
    ReadsArray(blob);
    ReadsArray(mac);
  }

  lemma ParsedEntries(sealed: Seal.EncryptedObject)
    requires FromHex(sealed.id).Some?
    ensures forall i :: 0 <= i < 7 ==>
              Lookup(Entries(ParsedValue(sealed)), ObjectFields()[i].0) == ParsedValues(sealed)[i]
  {
    FieldNames();
    hide Lookup, WithNames, DistinctNames, ParsedValues, ObjectFields;
    forall i | 0 <= i < 7
      ensures Lookup(Entries(ParsedValue(sealed)), ObjectFields()[i].0) == ParsedValues(sealed)[i]
    {
      NamedLookup(ObjectFields(), ParsedValues(sealed), i);
    }
  }

  lemma ReadsParsed(e: seq<(string, Value)>, sealed: Seal.EncryptedObject, services: Value, shares: Value,
                    ciphertext: Value)
    requires Lookup(e, "packageId") == Text(sealed.packageId) && Lookup(e, "id") == Text(sealed.id)
    requires Lookup(e, "services") == services && Lookup(e, "threshold") == Number(sealed.threshold)
    requires Lookup(e, "encryptedShares") == shares && Lookup(e, "ciphertext") == ciphertext
    requires services.List? && ReadServices(services.items) == Some(sealed.services)
    requires ReadShares(shares) == Some(sealed.encryptedShares)
    requires ReadCiphertext(ciphertext) == Some(sealed.ciphertext)
    ensures ReadObject(Obj(e)) == Some(sealed)
  {
    hide Lookup, ReadServices, ReadShares, ReadCiphertext;
  }

  lemma ReadsObject(sealed: Seal.EncryptedObject)
    requires FromHex(sealed.id).Some?
    ensures ReadObject(ParsedValue(sealed)) == Some(Normalized(sealed))
  {
    ParsedEntries(sealed);
    var fields, values := ObjectFields(), ParsedValues(sealed);
    assert fields[1].0 == "packageId" && fields[2].0 == "id" && fields[3].0 == "services";
    assert fields[4].0 == "threshold" && fields[5].0 == "encryptedShares" && fields[6].0 == "ciphertext";
    hide Lookup, WithNames, ObjectFields, ReadServices, ReadShares, ReadCiphertext, ReadObject, EnumValue, IbeValues,
         CiphertextName, CiphertextFields, ParsedCiphertextValues, IbeFields, ServiceValues, NormalizeAddress, ToHex,
         FromHex;
    ReadsServices(NormalServices(sealed.services));
    ReadsShares(sealed.encryptedShares);
    ReadsCiphertext(sealed.ciphertext);
    ReadsParsed(WithNames(fields, values), Normalized(sealed), values[3], values[5], values[6]);
  }

  /** Parsing a serialized object, with any bytes behind it, gives decrypt the object with its addresses
      and its id in normal form: exactly the object if and only if they were so before. */
  lemma ObjectComesBack(env: Environment, fuel: nat, sealed: Seal.EncryptedObject, suffix: seq<Byte>)
    requires WellSized(sealed) && WellNamed(sealed)
    ensures Encode(env, fuel, ObjectSchema(), ObjectValue(sealed)).Success?
    ensures var bytes := Encode(env, fuel, ObjectSchema(), ObjectValue(sealed)).value;
            var read := Parse(env, fuel, ObjectSchema(), bytes + suffix);
            && read.Success? && read.value.1 == |bytes|
            && ReadObject(read.value.0) == Some(Normalized(sealed))
            && (ReadObject(read.value.0) == Some(sealed) <==>
                  && NormalizeAddress(sealed.packageId) == sealed.packageId
                  && ToHex(FromHex(sealed.id).value) == sealed.id
                  && forall i :: 0 <= i < |sealed.services| ==>
                       NormalizeAddress(sealed.services[i].0) == sealed.services[i].0)
  {
    hide Encode, Parse, ReadObject, ObjectSchema, ObjectValue, ParsedValue, FromHex, ToHex, NormalizeAddress, WellSized,
         IsAddress, InRange, Canonical;
    ObjectWrites(env, fuel, sealed);
    ReadsObject(sealed);
    ParseInvertsEncode(env, fuel, ObjectSchema(), ObjectValue(sealed), suffix);
    if forall i :: 0 <= i < |sealed.services| ==> NormalizeAddress(sealed.services[i].0) == sealed.services[i].0 {
      assert NormalServices(sealed.services) == sealed.services;
    }
  }
}
