/** The three message types of the metrics log, as message.pb.cc spells them out. */
module Descriptors {
  import opened Codec

  const HEADER := Descriptor([
    Field(1, UInt32, Singular, [(24, 1)], false),     // message_length
    Field(3, Enum(1), Singular, [(34, 2)], false),    // hmac_hash_function
    Field(4, Text, Singular, [(40, 3)], false),       // hmac_signer
    Field(5, UInt32, Singular, [(50, 4)], false),     // hmac_key_version
    Field(6, Text, Singular, [], true)])              // hmac

  const FIELD := Descriptor([
    Field(1, Text, Singular, [(16, 1)], false),           // name
    Field(2, Enum(4), Singular, [(26, 2)], false),        // value_type
    Field(3, Text, Singular, [(34, 3)], false),           // representation
    Field(4, Text, Repeated, [(34, 3), (42, 4)], false),  // value_string
    Field(5, Text, Repeated, [(42, 4), (50, 5)], false),  // value_bytes
    Field(6, Int64, Packed, [(58, 6)], false),            // value_integer
    Field(7, Double, Packed, [(66, 7)], false),           // value_double
    Field(8, Bool, Packed, [], true)])                    // value_bool

  const MESSAGE := Descriptor([
    Field(1, Text, Singular, [(16, 1)], false),           // uuid
    Field(2, Int64, Singular, [(26, 2)], false),          // timestamp
    Field(3, Text, Singular, [(34, 3)], false),           // type
    Field(4, Text, Singular, [(40, 4)], false),           // logger
    Field(5, Int32, Singular, [(50, 5)], false),          // severity
    Field(6, Text, Singular, [(58, 6)], false),           // payload
    Field(7, Text, Singular, [(64, 7)], false),           // env_version
    Field(8, Int32, Singular, [(74, 8)], false),          // pid
    Field(9, Text, Singular, [(82, 9)], false),           // hostname
    Field(10, Sub(FIELD), Repeated, [(82, 9)], true)])    // fields

  lemma OneMore(d: Descriptor, i: nat)
    requires i < |d.fields| && (i + 1 == |d.fields| || FieldsOk(d, i + 1))
    requires FieldOk(d, d.fields[i]) && (i > 0 ==> d.fields[i - 1].number < d.fields[i].number)
    requires d.fields[i].kind.Sub? ==> WellFormed(d.fields[i].kind.desc)
    ensures FieldsOk(d, i) && (i == 0 ==> WellFormed(d))
  {
  }

  lemma HeaderIsWellFormed()
    ensures WellFormed(HEADER)
  {
    hide FieldsOk, WellFormed;
    var d := HEADER;
    OneMore(d, 4);
    OneMore(d, 3);
    OneMore(d, 2);
    OneMore(d, 1);
    OneMore(d, 0);
  }

  lemma FieldIsWellFormed()
    ensures WellFormed(FIELD)
  {
    hide FieldsOk, WellFormed;
    var d := FIELD;
    OneMore(d, 7);
    OneMore(d, 6);
    OneMore(d, 5);
    OneMore(d, 4);
    OneMore(d, 3);
    OneMore(d, 2);
    OneMore(d, 1);
    OneMore(d, 0);
  }

  lemma MessageIsWellFormed()
    ensures WellFormed(MESSAGE)
  {
    FieldIsWellFormed();
    hide FieldsOk, WellFormed, FIELD;
    var d := MESSAGE;
    OneMore(d, 9);
    OneMore(d, 8);
    OneMore(d, 7);
    OneMore(d, 6);
    OneMore(d, 5);
    OneMore(d, 4);
    OneMore(d, 3);
    OneMore(d, 2);
    OneMore(d, 1);
    OneMore(d, 0);
  }

  /** Every goto of the generated parsers leads to the case of the tag it has matched. */
  lemma TablesAreWellFormed()
    ensures WellFormed(HEADER) && WellFormed(FIELD) && WellFormed(MESSAGE)
  {
    hide WellFormed;
    HeaderIsWellFormed();
    FieldIsWellFormed();
    MessageIsWellFormed();
  }
}
