/** xdr2json and json2xdr end to end (libokxml/xdr_as_json.h). */
module XdrExchange {
  import opened Bytes
  import opened XdrModel
  import opened XdrMeaning
  import XdrCreator
  import XdrReader
  import XdrRoundTrip

  /** xdr2json: the JSON that stands for v. */
  method Xdr2Json(t: XdrType, v: XdrVal) returns (j: Json)
    requires HasType(t, v)
    ensures StandsFor(t, v, j)
    ensures j == Encode(t, v)
  {
    hide StandsFor;
    var creator := new XdrCreator.JsonCreator();
    var root := creator.Run(t, v);
    j := XdrCreator.Tree(creator.store, root);
  }

  /** json2xdr into an object that holds cur: it succeeds exactly on a readable tree, with what that reads as. */
  method Json2Xdr(t: XdrType, j: Json, cur: XdrVal) returns (ok: bool, v: XdrVal)
    requires WellFormed(t) && HasType(t, cur)
    ensures HasType(t, v) && (ok <==> Readable(t, j)) && (ok ==> ReadsAs(t, j, cur, v))
    ensures ok <==> Decode(t, Some(j), cur).Some?
    ensures ok ==> v == Decode(t, Some(j), cur).value
  {
    hide Readable, ReadsAs, Decode;
    var reader := new XdrReader.JsonReader(j);
    DecodeReadsAs(t, j, cur);
    ok, v := reader.In(t, cur);
  }

  /** Writes v as JSON and reads that back into a new object: v comes back, if and only if no string of v holds a
      NUL byte, and otherwise the reader reports failure. */
  method Exchange(t: XdrType, v: XdrVal) returns (ok: bool, out: XdrVal)
    requires WellFormed(t) && HasType(t, v)
    ensures ok <==> XdrRoundTrip.NulFree(t, v)
    ensures ok ==> out == v
  {
    hide StandsFor, Readable, ReadsAs;
    var j := Xdr2Json(t, v);
    DefaultHasType(t);
    XdrRoundTrip.DecodeEncode(t, v, Default(t));
    XdrRoundTrip.RoundTrip(t, v);
    ok, out := Json2Xdr(t, j, Default(t));
  }
}
