/**
 * http_ui_get_param_ex: a request parameter looked up in the query string,
 * then in an application/x-www-form-urlencoded body, then in a JSON body,
 * with a tag saying which source answered. The JSON parser (cJSON) is not
 * part of this model: its answer for a body and a key is a parameter.
 */
module Params {
  import opened Bytes
  import opened Headers
  import opened UrlEncoded
  import Server

  /** http_ui_param_source_t */
  datatype Source = NoSource | FromQuery | FromForm | FromJson

  /** char ctype[64] */
  const CTYPE_CAP: nat := 64
  /** char tmp[HTTP_SRV_RX_BUFFER_SIZE]: room for 1399 body bytes and the NUL. */
  const FORM_CAP: nat := 1399
  const FORM_URLENCODED: bytes := "application/x-www-form-urlencoded"
  const APPLICATION_JSON: bytes := "application/json"

  /** The text cJSON gives for a key of a JSON body (a string, a %g number, true or false), if any. */
  type JsonLookup = (bytes, bytes) -> Option<bytes>

  /** The header and body views of req lie inside the buffer. */
  predicate InBuffer(req: Server.Request, buf: bytes) {
    req.headersStart + req.headersLen <= |buf| && req.bodyStart + req.bodyLen <= |buf|
  }

  /** http_ui_get_content_type(req, ctype, 64) */
  function RequestType(req: Server.Request, buf: bytes): (r: Option<bytes>)
    requires InBuffer(req, buf)
    ensures r.Some? ==> |r.value| < CTYPE_CAP
  {
    ContentTypeOf(buf, req.headersStart, req.headersStart + req.headersLen, CTYPE_CAP)
  }

  function Body(req: Server.Request, buf: bytes): bytes
    requires InBuffer(req, buf)
  {
    buf[req.bodyStart..req.bodyStart + req.bodyLen]
  }

  /** The body as the form lookup reads it: copied into tmp, at most 1399 bytes, as a C string. */
  function FormText(req: Server.Request, buf: bytes): bytes
    requires InBuffer(req, buf)
  {
    CStr(Trunc(Body(req, buf), FORM_CAP))
  }

  /** http_ui_get_json_field: only for a JSON Content-Type; the text is cut to param_value's 127 bytes. */
  function JsonField(req: Server.Request, buf: bytes, key: bytes, json: JsonLookup): (r: Option<bytes>)
    requires InBuffer(req, buf)
    ensures r.Some? ==> |r.value| <= PARAM_CAP
  {
    var ct := RequestType(req, buf);
    if ct.None? || !HasPrefixNoCase(ct.value, APPLICATION_JSON) then None
    else match json(Body(req, buf), key)
      case None => None
      case Some(v) => Some(Trunc(v, PARAM_CAP))
  }

  /** The query string has the key. */
  predicate QueryHit(req: Server.Request, key: bytes) {
    FindParam(CStr(req.line.query), key).Some?
  }

  /** The Content-Type names a form body. */
  predicate IsForm(req: Server.Request, buf: bytes)
    requires InBuffer(req, buf)
  {
    RequestType(req, buf).Some? && HasPrefixNoCase(RequestType(req, buf).value, FORM_URLENCODED)
  }

  /** A non-empty form body has the key. */
  predicate FormHit(req: Server.Request, buf: bytes, key: bytes)
    requires InBuffer(req, buf)
  {
    IsForm(req, buf) && req.bodyLen > 0 && FindParam(FormText(req, buf), key).Some?
  }

  /**
   * http_ui_get_param_ex: the value, and the source that gave it. The first
   * source that has the key answers: the query, then the form body, then the
   * JSON body.
   */
  function GetParamEx(req: Server.Request, buf: bytes, key: bytes, json: JsonLookup): (r: (Option<bytes>, Source))
    requires InBuffer(req, buf)
    ensures r.0.None? <==> r.1 == NoSource
    ensures key == [] ==> r == (None, NoSource)
    ensures r.1 == FromQuery <==> key != [] && QueryHit(req, key)
    ensures r.1 == FromForm <==> key != [] && !QueryHit(req, key) && FormHit(req, buf, key)
    ensures r.1 == FromJson <==>
      key != [] && !QueryHit(req, key) && !FormHit(req, buf, key) && JsonField(req, buf, key, json).Some?
    ensures r.1 == NoSource <==>
      key == [] || (!QueryHit(req, key) && !FormHit(req, buf, key) && JsonField(req, buf, key, json).None?)
    ensures r.1 == FromQuery ==> r.0 == FindParam(CStr(req.line.query), key)
    ensures r.1 == FromForm ==>
      && r.0 == FindParam(FormText(req, buf), key) && req.bodyLen > 0
      && RequestType(req, buf).Some? && HasPrefixNoCase(RequestType(req, buf).value, FORM_URLENCODED)
    ensures r.1 == FromJson ==>
      && r.0 == JsonField(req, buf, key, json)
      && RequestType(req, buf).Some? && HasPrefixNoCase(RequestType(req, buf).value, APPLICATION_JSON)
  {
    if key == [] then (None, NoSource)
    else
      var q := CStr(req.line.query);
      var fromQuery := if q != [] then FindParam(q, key) else None;
      if fromQuery.Some? then (fromQuery, FromQuery)
      else
        var ct := RequestType(req, buf);
        var isForm := ct.Some? && HasPrefixNoCase(ct.value, FORM_URLENCODED);
        var fromForm := if isForm && req.bodyLen > 0 then FindParam(FormText(req, buf), key) else None;
        if fromForm.Some? then (fromForm, FromForm)
        else
          var fromJson := JsonField(req, buf, key, json);
          if fromJson.Some? then (fromJson, FromJson)
          else (None, NoSource)
  }

  /** The two media types differ at byte 12, so no Content-Type starts with both. */
  lemma FormIsNotJson(t: bytes)
    requires HasPrefixNoCase(t, FORM_URLENCODED)
    ensures !HasPrefixNoCase(t, APPLICATION_JSON)
  {
    assert Lower(t[12]) == Lower(FORM_URLENCODED[12]);
  }

  /** A form body never reaches the JSON lookup: a form request answers from the query, the form or not at all. */
  lemma FormRequestSkipsJson(req: Server.Request, buf: bytes, key: bytes, json: JsonLookup)
    requires InBuffer(req, buf)
    requires RequestType(req, buf).Some? && HasPrefixNoCase(RequestType(req, buf).value, FORM_URLENCODED)
    ensures GetParamEx(req, buf, key, json).1 != FromJson
  {
    FormIsNotJson(RequestType(req, buf).value);
  }

  lemma {:induction false} NoNulJoin(segs: seq<bytes>)
    requires |segs| > 0 && forall i :: 0 <= i < |segs| ==> NoNul(segs[i])
    ensures NoNul(JoinAmp(segs))
  {
    if |segs| > 1 {
      NoNulJoin(segs[1..]);
      var h, t := segs[0], JoinAmp(segs[1..]);
      forall i | 0 <= i < |h + [AMP] + t|
        ensures (h + [AMP] + t)[i] != NUL
      {
        if i < |h| {
          assert (h + [AMP] + t)[i] == h[i];
        } else if i > |h| {
          assert (h + [AMP] + t)[i] == t[i - |h| - 1];
        }
      }
    }
  }

  lemma FormBodyNoNul(fields: seq<(bytes, bytes)>)
    requires |fields| > 0
    requires forall i :: 0 <= i < |fields| ==> GoodKey(fields[i].0) && Fits(fields[i].1)
    ensures NoNul(FormBody(fields))
  {
    var segs := seq(|fields|, i requires 0 <= i < |fields| => Field(fields[i].0, fields[i].1));
    forall i | 0 <= i < |segs|
      ensures NoNul(segs[i])
    {
      var k, v := fields[i].0, fields[i].1;
      EncodeSafe(v);
      var seg := Field(k, v);
      forall j | 0 <= j < |seg|
        ensures seg[j] != NUL
      {
        if j < |k| {
          assert seg[j] == k[j];
        } else if j > |k| {
          assert seg[j] == Encode(v)[j - |k| - 1];
        }
      }
    }
    NoNulJoin(segs);
  }

  /**
   * A form POST: with no answer from the query, a form Content-Type and a
   * body written by the form serializer that fits tmp, the parameter is the
   * first field with that key, tagged as coming from the form.
   */
  lemma FormPostAnswers(req: Server.Request, buf: bytes, key: bytes, json: JsonLookup, fields: seq<(bytes, bytes)>, i: nat)
    requires InBuffer(req, buf) && GoodKey(key)
    requires FindParam(CStr(req.line.query), key).None?
    requires RequestType(req, buf).Some? && HasPrefixNoCase(RequestType(req, buf).value, FORM_URLENCODED)
    requires |fields| > 0 && forall j :: 0 <= j < |fields| ==> GoodKey(fields[j].0) && Fits(fields[j].1)
    requires Body(req, buf) == FormBody(fields) && req.bodyLen <= FORM_CAP
    requires FirstKey(fields, key) == Some(i)
    ensures GetParamEx(req, buf, key, json) == (Some(fields[i].1), FromForm)
  {
    var body := FormBody(fields);
    assert |body| > 0 by {
      assert |Field(fields[0].0, fields[0].1)| > 0;
      assert |fields| == 1 || |body| >= |Field(fields[0].0, fields[0].1)|;
    }
    FormBodyNoNul(fields);
    CStrOfNoNul(body);
    assert FormText(req, buf) == body;
    FindParamOfForm(fields, key);
  }

  /** A query that has the key answers, whatever the body says. */
  lemma QueryWins(req: Server.Request, buf: bytes, key: bytes, json: JsonLookup, fields: seq<(bytes, bytes)>, i: nat)
    requires InBuffer(req, buf) && GoodKey(key)
    requires |fields| > 0 && forall j :: 0 <= j < |fields| ==> GoodKey(fields[j].0) && Fits(fields[j].1)
    requires req.line.query == FormBody(fields) && FirstKey(fields, key) == Some(i)
    ensures GetParamEx(req, buf, key, json) == (Some(fields[i].1), FromQuery)
  {
    FormBodyNoNul(fields);
    CStrOfNoNul(req.line.query);
    FindParamOfForm(fields, key);
  }
}
