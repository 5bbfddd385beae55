/**
 * `errorToFlatObject` of src/lib/errors.ts: turns whatever a PocketBase call
 * threw into a flat record from field name to message, for a form to show.
 */
module Errors {
  import opened Wrappers

  /** A field entry of a PocketBase error response: the field's name and its `message`. */
  datatype FieldError = FieldError(name: string, message: string)

  /**
   * The thrown value. A `ClientResponseError` carries its own `message`, the
   * response's `message` and the response's per-field object (`None` when the
   * response has none); any other `Error` carries a message; anything else is
   * not an `Error` at all.
   */
  datatype ErrorValue =
    | ClientResponse(message: string, responseMessage: string, fieldData: Option<seq<FieldError>>)
    | PlainError(message: string)
    | NotAnError

  /** `Object.keys(err.data.data || {})` with their entries, in key order. */
  function FieldsOf(err: ErrorValue): seq<FieldError>
    requires err.ClientResponse?
  {
    match err.fieldData
    case None => []
    case Some(fields) => fields
  }

  function Names(fields: seq<FieldError>): set<string> {
    set i | 0 <= i < |fields| :: fields[i].name
  }

  /** The record the field loop writes: one assignment per field, in order, so a later field wins. */
  function FieldRecord(fields: seq<FieldError>): map<string, string>
    decreases |fields|
  {
    if fields == [] then map[]
    else
      var last := fields[|fields| - 1];
      FieldRecord(fields[..|fields| - 1])[last.name := last.message]
  }

  /**
   * The record has a key for exactly the field names, and each key holds the
   * message of the last field with that name; so with distinct names, each
   * field's own message.
   */
  lemma {:induction false} FieldRecordSpec(fields: seq<FieldError>)
    ensures FieldRecord(fields).Keys == Names(fields)
    ensures forall i :: 0 <= i < |fields| && (forall j :: i < j < |fields| ==> fields[j].name != fields[i].name) ==>
              FieldRecord(fields)[fields[i].name] == fields[i].message
    decreases |fields|
  {
    if fields != [] {
      var init := fields[..|fields| - 1];
      var last := fields[|fields| - 1];
      FieldRecordSpec(init);
      assert Names(fields) == Names(init) + {last.name} by {
        forall x | x in Names(fields) ensures x in Names(init) + {last.name} {
          var i :| 0 <= i < |fields| && fields[i].name == x;
          if i < |init| { assert init[i] == fields[i]; }
        }
        forall x | x in Names(init) ensures x in Names(fields) {
          var i :| 0 <= i < |init| && init[i].name == x;
          assert fields[i] == init[i];
        }
      }
      forall i | 0 <= i < |fields| && (forall j :: i < j < |fields| ==> fields[j].name != fields[i].name)
        ensures FieldRecord(fields)[fields[i].name] == fields[i].message
      {
        if i < |init| {
          assert init[i] == fields[i];
          assert forall j :: i < j < |init| ==> init[j] == fields[j];
        }
      }
    }
  }

  /**
   * `errorToFlatObject(err)`. A `ClientResponseError` is recognised first: with
   * field data each field's message is recorded under its name, otherwise the
   * response message goes under `general`. Any other `Error` puts its own
   * message under `general`, and a value that is not an `Error` gets
   * `Unknown Error` there.
   */
  method ErrorToFlatObject(err: ErrorValue) returns (errObj: map<string, string>)
    ensures err.NotAnError? ==> errObj == map["general" := "Unknown Error"]
    ensures err.PlainError? ==> errObj == map["general" := err.message]
    ensures err.ClientResponse? && FieldsOf(err) == [] ==> errObj == map["general" := err.responseMessage]
    ensures err.ClientResponse? && FieldsOf(err) != [] ==>
              && errObj == FieldRecord(FieldsOf(err))
              && errObj.Keys == Names(FieldsOf(err))
              && forall i :: 0 <= i < |FieldsOf(err)| ==>
                   var fields := FieldsOf(err);
                   (forall j :: i < j < |fields| ==> fields[j].name != fields[i].name) ==>
                   errObj[fields[i].name] == fields[i].message
    ensures |errObj| >= 1
  {
    errObj := map[];
    if err.ClientResponse? {
      var keyNames := FieldsOf(err);
      if |keyNames| > 0 {
        for n := 0 to |keyNames|
          invariant errObj == FieldRecord(keyNames[..n])
        {
          assert keyNames[..n + 1][..n] == keyNames[..n];
          errObj := errObj[keyNames[n].name := keyNames[n].message];
        }
        assert keyNames[..|keyNames|] == keyNames;
        FieldRecordSpec(keyNames);
        assert keyNames[0].name in errObj;
      } else {
        errObj := errObj["general" := err.responseMessage];
      }
    } else if err.PlainError? {
      errObj := errObj["general" := err.message];
    } else {
      errObj := errObj["general" := "Unknown Error"];
    }
  }

  /** The error's own `message` never reaches the record of a `ClientResponseError`. */
  method ClientMessageUnused(a: ErrorValue, b: ErrorValue) returns (ra: map<string, string>, rb: map<string, string>)
    requires a.ClientResponse? && b.ClientResponse?
    requires a.responseMessage == b.responseMessage && a.fieldData == b.fieldData
    ensures ra == rb
  {
    ra := ErrorToFlatObject(a);
    rb := ErrorToFlatObject(b);
  }
}
