/** The batch endpoint's text handling: the JSON object the GET branch
    writes for `?keys=k1,k2,...`, and the two hand-written readers of a
    `{"k1":"v1","k2":"v2"}` body — `parseJsonToMap`, which the POST branch
    uses, and `parseJsonLike`. Neither reader understands JSON: both split on
    `,` and `:` and strip quotes. */
module LsmBatchHandler {
  import opened Wrappers
  import opened Bytes
  import opened JavaText
  import Utf8

  /** A status code and a response body. */
  datatype Reply = Reply(status: int, body: string)

  /** Pairs gathered into a map in order, so a later pair with the same key
      replaces an earlier one, as `HashMap.put` does. */
  function Collect<V>(ps: seq<(string, V)>): map<string, V>
    decreases |ps|
  {
    if ps == [] then map[] else Collect(ps[..|ps| - 1])[ps[|ps| - 1].0 := ps[|ps| - 1].1]
  }

  /** The map holds exactly the keys of the pairs. */
  lemma {:induction false} CollectKeys<V>(ps: seq<(string, V)>)
    ensures Collect(ps).Keys == set i | 0 <= i < |ps| :: ps[i].0
    decreases |ps|
  {
    if ps != [] {
      var init := ps[..|ps| - 1];
      CollectKeys(init);
      assert forall i :: 0 <= i < |init| ==> init[i] == ps[i];
    }
  }

  /** What each piece between commas gives, in order; a piece `read` makes
      nothing of is skipped. */
  function Pairs<V>(pieces: seq<string>, read: string -> Option<(string, V)>): seq<(string, V)>
    decreases |pieces|
  {
    if pieces == [] then []
    else
      var p := read(pieces[|pieces| - 1]);
      Pairs(pieces[..|pieces| - 1], read) + (if p.Some? then [p.value] else [])
  }

  /** Reading one more piece puts its pair, if any, into the map. */
  lemma CollectStep<V>(pieces: seq<string>, read: string -> Option<(string, V)>, i: nat)
    requires i < |pieces|
    ensures var p := read(pieces[i]);
      Collect(Pairs(pieces[..i + 1], read)) ==
        if p.Some? then Collect(Pairs(pieces[..i], read))[p.value.0 := p.value.1]
        else Collect(Pairs(pieces[..i], read))
  {
    assert pieces[..i + 1][..i] == pieces[..i];
    var ps := Pairs(pieces[..i + 1], read);
    var p := read(pieces[i]);
    var prior := Pairs(pieces[..i], read);
    if p.Some? {
      assert ps == prior + [p.value];
      assert ps[..|ps| - 1] == prior && ps[|ps| - 1] == p.value;
    } else {
      assert ps == prior;
    }
  }

  /** Pieces that each give a pair give exactly those pairs. */
  lemma {:induction false} PairsAll<V>(pieces: seq<string>, read: string -> Option<(string, V)>, ps: seq<(string, V)>)
    requires |pieces| == |ps|
    requires forall i :: 0 <= i < |pieces| ==> read(pieces[i]) == Some(ps[i])
    ensures Pairs(pieces, read) == ps
    decreases |pieces|
  {
    if pieces != [] {
      var n := |pieces| - 1;
      assert forall i :: 0 <= i < n ==> pieces[..n][i] == pieces[i];
      PairsAll(pieces[..n], read, ps[..n]);
      assert ps == ps[..n] + [ps[n]];
    }
  }

  /** Each key maps to the value of its last pair. */
  lemma {:induction false} CollectLast<V>(ps: seq<(string, V)>, i: nat)
    requires i < |ps|
    requires forall j :: i < j < |ps| ==> ps[j].0 != ps[i].0
    ensures ps[i].0 in Collect(ps) && Collect(ps)[ps[i].0] == ps[i].1
    decreases |ps|
  {
    if i < |ps| - 1 {
      var init := ps[..|ps| - 1];
      assert init[i] == ps[i];
      CollectLast(init, i);
    }
  }

  // ---------------------------------------------------------------- GET

  /** The keys of a GET query: the query must start with `keys=` and have
      something after it, which is split at commas. */
  function QueryKeys(query: Option<string>): (r: Result<seq<string>, Reply>)
    ensures r.Ok? ==> forall i :: 0 <= i < |r.value| ==> ',' !in r.value[i]
  {
    if query.None? || !("keys=" <= query.value) then
      Err(Reply(400, "Missing keys parameter (expected ?keys=key1,key2,...)"))
    else
      var param := query.value[5..];
      if param == [] then Err(Reply(400, "Keys parameter cannot be empty"))
      else
        SplitSpec(param, ',');
        Ok(Split(param, ','))
  }

  /** Keys joined with commas after `keys=` come back as those keys, as long
      as none holds a comma and the last is not empty. */
  lemma QueryKeysJoin(keys: seq<string>)
    requires |keys| >= 1 && keys[|keys| - 1] != []
    requires forall i :: 0 <= i < |keys| ==> ',' !in keys[i]
    ensures QueryKeys(Some("keys=" + Join(keys, ','))) == Ok(keys)
  {
    var q := "keys=" + Join(keys, ',');
    assert "keys=" <= q;
    assert q[5..] == Join(keys, ',');
    SplitJoin(keys, ',');
    assert Split(Join(keys, ','), ',') == keys;
  }

  /** `value.replace("\"", "\\\"")`: a backslash before every quote. */
  function EscapeQuotes(s: string): (r: string)
    ensures forall c :: c in r ==> c in s || c == '\\'
    decreases |s|
  {
    if s == [] then []
    else (if s[0] == '"' then "\\\"" else [s[0]]) + EscapeQuotes(s[1..])
  }

  /** What a JSON reader makes of `\"`: a quote. */
  function UnescapeQuotes(t: string): string
    decreases |t|
  {
    if t == [] then []
    else if |t| >= 2 && t[0] == '\\' && t[1] == '"' then "\"" + UnescapeQuotes(t[2..])
    else [t[0]] + UnescapeQuotes(t[1..])
  }

  lemma EscapeStartsUnquoted(s: string)
    ensures EscapeQuotes(s) == [] || EscapeQuotes(s)[0] != '"'
  {
  }

  /** The escaping loses nothing: undoing it gives back the value. */
  lemma {:induction false} UnescapeEscape(s: string)
    ensures UnescapeQuotes(EscapeQuotes(s)) == s
    decreases |s|
  {
    if s != [] {
      var rest := EscapeQuotes(s[1..]);
      UnescapeEscape(s[1..]);
      if s[0] == '"' {
        assert EscapeQuotes(s) == "\\\"" + rest;
        assert (EscapeQuotes(s))[2..] == rest;
      } else {
        EscapeStartsUnquoted(s[1..]);
        assert EscapeQuotes(s) == [s[0]] + rest;
        assert (EscapeQuotes(s))[1..] == rest;
      }
    }
  }

  /** A value with no quote is written as it is. */
  lemma {:induction false} EscapeUnquoted(s: string)
    requires '"' !in s
    ensures EscapeQuotes(s) == s
    decreases |s|
  {
    if s != [] {
      assert '"' !in s[1..];
      EscapeUnquoted(s[1..]);
    }
  }

  /** What follows a key's colon: `null` for a missing value, else the value
      in quotes with its quotes escaped. */
  function ValueText(v: Option<string>): string {
    match v
    case None => "null"
    case Some(t) => "\"" + EscapeQuotes(t) + "\""
  }

  /** One `"key":value` member of the reply. */
  function Member(k: string, v: Option<string>): string {
    "\"" + k + "\":" + ValueText(v)
  }

  function Members(keys: seq<string>, values: seq<Option<string>>): (r: seq<string>)
    requires |keys| == |values|
    ensures |r| == |keys|
  {
    seq(|keys|, i requires 0 <= i < |keys| => Member(keys[i], values[i]))
  }

  /** The reply body: the members joined by commas, no trailing comma, in
      braces. */
  function ResponseText(keys: seq<string>, values: seq<Option<string>>): string
    requires |keys| == |values|
  {
    "{" + Join(Members(keys, values), ',') + "}"
  }

  /** What the handler found for each key: `lookup` stands for the engine's
      `get` and its decoding — `null`, the value read as UTF-8, or
      `"ERROR: "` and the exception's message. */
  function Values(keys: seq<string>, lookup: string -> Option<string>): (r: seq<Option<string>>)
    ensures |r| == |keys|
  {
    seq(|keys|, i requires 0 <= i < |keys| => lookup(keys[i]))
  }

  /** The GET branch: a malformed query is a 400 with its message; otherwise
      the members are appended one by one, a comma after every one but the
      last, and the object is the 200 reply. */
  method GetReply(query: Option<string>, lookup: string -> Option<string>) returns (reply: Reply)
    ensures QueryKeys(query).Err? ==> reply == QueryKeys(query).error
    ensures QueryKeys(query).Ok? ==>
      reply == Reply(200, ResponseText(QueryKeys(query).value, Values(QueryKeys(query).value, lookup)))
  {
    var q := QueryKeys(query);
    if q.Err? {
      return q.error;
    }
    var keys := q.value;
    ghost var values := Values(keys, lookup);
    var json := "{";
    PartialEnds(keys, values);
    var i := 0;
    while i < |keys|
      invariant 0 <= i <= |keys|
      invariant json == Partial(keys, values, i)
    {
      ghost var before := json;
      var k := keys[i];
      var value := lookup(k);
      json := json + "\"" + k + "\":";
      ghost var head := json;
      if value.None? {
        json := json + "null";
      } else {
        json := json + "\"" + EscapeQuotes(value.value) + "\"";
      }
      AppendMember(before, head, json, k, value);
      if i < |keys| - 1 {
        json := json + ",";
      }
      RenderStep(keys, values, i, before, json);
      i := i + 1;
    }
    json := json + "}";
    reply := Reply(200, json);
  }

  /** The text so far, after `i` members: the opening brace, the members
      joined, and a comma when more members follow. */
  function Partial(keys: seq<string>, values: seq<Option<string>>, i: nat): string
    requires |keys| == |values| && i <= |keys|
  {
    "{" + Join(Members(keys, values)[..i], ',') + (if 0 < i < |keys| then "," else "")
  }

  /** The text starts as a lone brace and, once every member is in,
      needs only the closing brace. */
  lemma PartialEnds(keys: seq<string>, values: seq<Option<string>>)
    requires |keys| == |values|
    ensures Partial(keys, values, 0) == "{"
    ensures Partial(keys, values, |keys|) + "}" == ResponseText(keys, values)
  {
    var ms := Members(keys, values);
    assert ms[..0] == [] && ms[..|keys|] == ms;
  }

  /** The appends for one key add exactly its member. */
  lemma AppendMember(before: string, head: string, after: string, k: string, v: Option<string>)
    requires head == before + "\"" + k + "\":"
    requires after == head + ValueText(v)
    ensures after == before + Member(k, v)
  {
    assert before + Member(k, v) == before + ("\"" + k + "\":") + ValueText(v);
  }

  /** Appending member `i` and, unless it is the last, a comma extends the
      text of `i` members to the text of `i + 1`. */
  lemma RenderStep(keys: seq<string>, values: seq<Option<string>>, i: nat, before: string, after: string)
    requires |keys| == |values| && i < |keys|
    requires before == Partial(keys, values, i)
    requires after == before + Member(keys[i], values[i]) + (if i < |keys| - 1 then "," else "")
    ensures after == Partial(keys, values, i + 1)
  {
    var m := Member(keys[i], values[i]);
    var ms := Members(keys, values);
    var a, b := ms[..i + 1], ms[..i];
    var tail := if i < |keys| - 1 then "," else "";
    assert a == b + [m];
    assert Partial(keys, values, i + 1) == "{" + Join(a, ',') + tail;
    if i > 0 {
      JoinSnoc(b, m, ',');
      assert before == "{" + Join(b, ',') + ",";
      Regroup(Join(b, ','), m, tail);
    } else {
      assert b == [] && a == [m];
      assert before == "{";
    }
  }

  lemma Regroup(j: string, m: string, tail: string)
    ensures "{" + j + "," + m + tail == "{" + (j + [','] + m) + tail
  {
  }

  // ------------------------------------------------------- parseJsonToMap

  /** What `parseJsonToMap` splits: the trimmed body without one leading
      `{` and one trailing `}`, each removed only if present. */
  function MapBody(json: string): string {
    var t := Trim(json);
    var a := if |t| > 0 && t[0] == '{' then t[1..] else t;
    if |a| > 0 && a[|a| - 1] == '}' then a[..|a| - 1] else a
  }

  /** One piece, cut at its first colon: a piece with no colon gives
      nothing; otherwise the trimmed key and value, each without one outer
      quote at either end, the value as its UTF-8 bytes. */
  function MapPair(piece: string): Option<(string, seq<Byte>)> {
    var kv := SplitFirst(piece, ':');
    if |kv| == 2 then
      Some((StripOuterQuotes(Trim(kv[0])), Utf8.Encode(StripOuterQuotes(Trim(kv[1])))))
    else None
  }

  /** The first statements of `parseJsonToMap`: trim, then drop a leading
      `{` and a trailing `}` where present. */
  method StripBraces(json: string) returns (body: string)
    ensures body == MapBody(json)
  {
    body := Trim(json);
    if |body| > 0 && body[0] == '{' {
      body := body[1..];
    }
    if |body| > 0 && body[|body| - 1] == '}' {
      body := body[..|body| - 1];
    }
  }

  /** The body of `parseJsonToMap`'s loop for one piece: `split(":", 2)`,
      and for two parts the key and the value's bytes. */
  method ReadMapPair(piece: string) returns (p: Option<(string, seq<Byte>)>)
    ensures p == MapPair(piece)
  {
    var kv := SplitFirst(piece, ':');
    if |kv| == 2 {
      var key := StripOuterQuotes(Trim(kv[0]));
      var value := StripOuterQuotes(Trim(kv[1]));
      p := Some((key, Utf8.Encode(value)));
    } else {
      p := None;
    }
  }

  /** `parseJsonToMap(json)`: every piece between commas that has a colon
      becomes an entry, a later one replacing an earlier one with the same
      key. */
  method ParseJsonToMap(json: string) returns (m: map<string, seq<Byte>>)
    ensures m == Collect(Pairs(Split(MapBody(json), ','), MapPair))
  {
    var body := StripBraces(json);
    var pieces := Split(body, ',');
    m := map[];
    var i := 0;
    assert pieces[..i] == [];
    while i < |pieces|
      invariant 0 <= i <= |pieces|
      invariant m == Collect(Pairs(pieces[..i], MapPair))
    {
      var p := ReadMapPair(pieces[i]);
      CollectStep(pieces, MapPair, i);
      if p.Some? {
        m := m[p.value.0 := p.value.1];
      }
      i := i + 1;
    }
    assert pieces[..i] == pieces;
  }

  /** How `parseJsonToMap` reads a value text back: a quoted value loses its
      outer quotes only, and `null` stays the word `null`. */
  function WireValue(v: Option<string>): string {
    match v
    case None => "null"
    case Some(t) => EscapeQuotes(t)
  }

  /** A member is its quoted key, a colon and its value text. */
  lemma MemberParts(k: string, v: Option<string>)
    ensures Member(k, v) == ("\"" + k + "\"") + [':'] + ValueText(v)
  {
  }

  /** A piece whose first colon follows `a` reads as `a` and `b`, trimmed
      and unquoted. */
  lemma MapPairAt(a: string, b: string)
    requires ':' !in a
    ensures MapPair(a + [':'] + b) == Some((StripOuterQuotes(Trim(a)), Utf8.Encode(StripOuterQuotes(Trim(b)))))
  {
    SplitFirstAt(a, b, ':');
  }

  /** `parseJsonToMap` gets back the text of a quoted key or value. */
  lemma MapUnquote(t: string)
    ensures StripOuterQuotes(Trim("\"" + t + "\"")) == t
  {
    TrimOfTrimmed("\"" + t + "\"");
    StripOuterQuotesWrapped(t);
  }

  /** `parseJsonToMap` reads a value text back as its wire value. */
  lemma MapValueBack(v: Option<string>)
    ensures StripOuterQuotes(Trim(ValueText(v))) == WireValue(v)
  {
    match v
    case None =>
      TrimOfTrimmed("null");
      StripOuterQuotesUnquoted("null");
    case Some(t) =>
      MapUnquote(EscapeQuotes(t));
  }

  /** `parseJsonToMap` reads one member back as its key and value text. */
  lemma MapPairOfMember(k: string, v: Option<string>)
    requires ':' !in k
    ensures MapPair(Member(k, v)) == Some((k, Utf8.Encode(WireValue(v))))
  {
    var qk := "\"" + k + "\"";
    assert ':' !in qk;
    MemberParts(k, v);
    MapPairAt(qk, ValueText(v));
    MapUnquote(k);
    MapValueBack(v);
  }

  /** The braces of a reply are what `parseJsonToMap` strips. */
  lemma MapBodyOfResponse(keys: seq<string>, values: seq<Option<string>>)
    requires |keys| == |values|
    ensures MapBody(ResponseText(keys, values)) == Join(Members(keys, values), ',')
  {
    var j := Join(Members(keys, values), ',');
    var t := ResponseText(keys, values);
    TrimOfTrimmed(t);
    assert t[1..] == j + "}";
    assert (j + "}")[..|j|] == j;
  }

  /** The members of a reply are the pieces `split(",")` finds, when no key
      and no value holds a comma. */
  lemma SplitResponse(keys: seq<string>, values: seq<Option<string>>)
    requires |keys| == |values| && |keys| >= 1
    requires forall i :: 0 <= i < |keys| ==> ',' !in keys[i]
    requires forall i :: 0 <= i < |values| ==> values[i].Some? ==> ',' !in values[i].value
    ensures Split(Join(Members(keys, values), ','), ',') == Members(keys, values)
  {
    var ms := Members(keys, values);
    forall i | 0 <= i < |ms| ensures ',' !in ms[i] {
      assert ms[i] == "\"" + keys[i] + "\":" + ValueText(values[i]);
    }
    assert ms[|ms| - 1][0] == '"';
    SplitJoin(ms, ',');
  }

  /** Round trip: `parseJsonToMap` on a GET reply finds, in order, each key
      with the UTF-8 bytes of its value text — the escaped value, or `null`
      — provided no key holds a colon and no value a comma (keys from a
      query never hold a comma). */
  lemma ParseGetReply(keys: seq<string>, values: seq<Option<string>>)
    requires |keys| == |values|
    requires forall i :: 0 <= i < |keys| ==> ',' !in keys[i] && ':' !in keys[i]
    requires forall i :: 0 <= i < |values| ==> values[i].Some? ==> ',' !in values[i].value
    ensures Pairs(Split(MapBody(ResponseText(keys, values)), ','), MapPair) ==
      seq(|keys|, i requires 0 <= i < |keys| => (keys[i], Utf8.Encode(WireValue(values[i]))))
  {
    MapBodyOfResponse(keys, values);
    var ms := Members(keys, values);
    var ps := seq(|keys|, i requires 0 <= i < |keys| => (keys[i], Utf8.Encode(WireValue(values[i]))));
    if keys == [] {
      assert Join(ms, ',') == [];
      assert ',' !in "";
      assert SplitFirst("", ':') == [""];
    } else {
      SplitResponse(keys, values);
      forall i | 0 <= i < |ms| ensures MapPair(ms[i]) == Some(ps[i]) {
        MapPairOfMember(keys[i], values[i]);
      }
      PairsAll(ms, MapPair, ps);
    }
  }

  // -------------------------------------------------------- parseJsonLike

  /** One piece, split at every colon: exactly two parts give the trimmed
      key and value with every quote removed; anything else gives nothing. */
  function LikePair(piece: string): Option<(string, string)> {
    var kv := Split(piece, ':');
    if |kv| == 2 then Some((RemoveAll(Trim(kv[0]), '"'), RemoveAll(Trim(kv[1]), '"')))
    else None
  }

  /** Whether the trimmed body is wrapped in braces, the only case
      `parseJsonLike` reads. */
  predicate Braced(t: string) {
    |t| > 0 && t[0] == '{' && t[|t| - 1] == '}'
  }

  /** The body of `parseJsonLike`'s loop for one piece: `split(":")`, and
      for exactly two parts the key and value without quotes. */
  method ReadLikePair(piece: string) returns (p: Option<(string, string)>)
    ensures p == LikePair(piece)
  {
    var kv := Split(piece, ':');
    if |kv| == 2 {
      p := Some((RemoveAll(Trim(kv[0]), '"'), RemoveAll(Trim(kv[1]), '"')));
    } else {
      p := None;
    }
  }

  /** `parseJsonLike(body)`: nothing unless the trimmed body is in braces;
      then every piece between commas that splits into exactly two parts at
      colons becomes an entry, a later one replacing an earlier one. */
  method ParseJsonLike(body: string) returns (m: map<string, string>)
    ensures !Braced(Trim(body)) ==> m == map[]
    ensures Braced(Trim(body)) ==> m == Collect(Pairs(Split(Trim(body)[1..|Trim(body)| - 1], ','), LikePair))
  {
    m := map[];
    var t := Trim(body);
    if |t| > 0 && t[0] == '{' && t[|t| - 1] == '}' {
      var inner := t[1..|t| - 1];
      var pieces := Split(inner, ',');
      var i := 0;
      assert pieces[..i] == [];
      while i < |pieces|
        invariant 0 <= i <= |pieces|
        invariant m == Collect(Pairs(pieces[..i], LikePair))
      {
        var p := ReadLikePair(pieces[i]);
        CollectStep(pieces, LikePair, i);
        if p.Some? {
          m := m[p.value.0 := p.value.1];
        }
        i := i + 1;
      }
      assert pieces[..i] == pieces;
    }
  }

  /** The value `parseJsonLike` reads back: the value itself, or `null`. */
  function LikeValue(v: Option<string>): string {
    match v
    case None => "null"
    case Some(t) => t
  }

  /** Removing every quote from a quoted text with no quote inside leaves
      the text. */
  lemma UnquoteWrapped(t: string)
    requires '"' !in t
    ensures RemoveAll("\"" + t + "\"", '"') == t
  {
    RemoveAllAppend("\"" + t, "\"", '"');
    RemoveAllAppend("\"", t, '"');
    assert RemoveAll("\"", '"') == [];
  }

  /** A piece with exactly one colon, not at its end, reads as the text
      on either side, trimmed and without quotes. */
  lemma LikePairAt(a: string, b: string)
    requires ':' !in a && ':' !in b && b != []
    ensures LikePair(a + [':'] + b) == Some((RemoveAll(Trim(a), '"'), RemoveAll(Trim(b), '"')))
  {
    assert a + [':'] + b == Join([a, b], ':');
    SplitJoin([a, b], ':');
  }

  /** `parseJsonLike` gets back a quoted text that holds no quote. */
  lemma LikeUnquote(t: string)
    requires '"' !in t
    ensures RemoveAll(Trim("\"" + t + "\""), '"') == t
  {
    TrimOfTrimmed("\"" + t + "\"");
    UnquoteWrapped(t);
  }

  /** `parseJsonLike` reads one member back, when neither key nor value
      holds a colon or a quote. */
  lemma LikePairOfMember(k: string, v: Option<string>)
    requires ':' !in k && '"' !in k
    requires v.Some? ==> ':' !in v.value && '"' !in v.value
    ensures LikePair(Member(k, v)) == Some((k, LikeValue(v)))
  {
    var qk := "\"" + k + "\"";
    var tv := ValueText(v);
    assert ':' !in qk;
    MemberParts(k, v);
    LikeUnquote(k);
    match v
    case None =>
      assert ':' !in tv;
      LikePairAt(qk, tv);
      TrimOfTrimmed(tv);
    case Some(t) =>
      EscapeUnquoted(t);
      assert tv == "\"" + t + "\"";
      LikePairAt(qk, tv);
      LikeUnquote(t);
  }

  /** Round trip: `parseJsonLike` on a GET reply finds, in order, each key
      with its value (or `null`), provided no key or value holds a comma, a
      colon or a quote. */
  lemma ParseLikeGetReply(keys: seq<string>, values: seq<Option<string>>)
    requires |keys| == |values|
    requires forall i :: 0 <= i < |keys| ==> ',' !in keys[i] && ':' !in keys[i] && '"' !in keys[i]
    requires forall i :: 0 <= i < |values| ==> values[i].Some? ==>
      ',' !in values[i].value && ':' !in values[i].value && '"' !in values[i].value
    ensures var t := Trim(ResponseText(keys, values));
      && Braced(t)
      && Pairs(Split(t[1..|t| - 1], ','), LikePair) ==
        seq(|keys|, i requires 0 <= i < |keys| => (keys[i], LikeValue(values[i])))
  {
    var t := ResponseText(keys, values);
    TrimOfTrimmed(t);
    var ms := Members(keys, values);
    assert t[1..|t| - 1] == Join(ms, ',');
    var ps := seq(|keys|, i requires 0 <= i < |keys| => (keys[i], LikeValue(values[i])));
    if keys == [] {
      assert Join(ms, ',') == [];
      assert ',' !in "";
      assert ':' !in "";
    } else {
      SplitResponse(keys, values);
      forall i | 0 <= i < |ms| ensures LikePair(ms[i]) == Some(ps[i]) {
        LikePairOfMember(keys[i], values[i]);
      }
      PairsAll(ms, LikePair, ps);
    }
  }
}
