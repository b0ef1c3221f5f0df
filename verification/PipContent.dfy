/** The hand-made content scanner of src/quorum.rs and the content printers of src/event.rs. */
module PipContent {
  import opened Prelude
  import opened Events

  // ---- the scanner ----

  predicate OccursAt(text: string, needle: string, i: nat) {
    i + |needle| <= |text| && text[i..i + |needle|] == needle
  }

  /** `text[from..].find(needle)`, as a position in `text`. */
  function FindFrom(text: string, needle: string, from: nat): (r: Option<nat>)
    requires from <= |text|
    ensures r.Some? ==> from <= r.value && OccursAt(text, needle, r.value)
    ensures r.Some? ==> forall j | from <= j < r.value :: !OccursAt(text, needle, j)
    ensures r == None ==> forall j | from <= j :: !OccursAt(text, needle, j)
    decreases |text| - from
  {
    if OccursAt(text, needle, from) then Some(from)
    else if from == |text| then None
    else FindFrom(text, needle, from + 1)
  }

  function Needle(key: string): string {
    "\"" + key + "\":\""
  }

  /** The `get` closure of `parse_pip_content`. */
  function Field(raw: string, key: string): Option<string> {
    match FindFrom(raw, Needle(key), 0)
    case None => None
    case Some(found) =>
      var start := found + |Needle(key)|;
      match FindFrom(raw, "\"", start)
      case None => None
      case Some(end) => Some(raw[start..end])
  }

  datatype PipContent = PipContent(pipType: string, rootId: string, sha256: string, sealId: Option<string>)

  function ParsePipContent(raw: string): Option<PipContent> {
    match (Field(raw, "type"), Field(raw, "root_id"), Field(raw, "sha256"))
    case (Some(pipType), Some(rootId), Some(sha256)) =>
      Some(PipContent(pipType, rootId, sha256, Field(raw, "seal_id")))
    case _ => None
  }

  // ---- the printers ----

  function Quoted(s: string): string {
    "\"" + s + "\""
  }

  /** `"key":"value"` */
  function Pair(key: string, value: string): string {
    "\"" + key + "\":\"" + value + "\""
  }

  /** The fields that all PIP contents share, and the brace that opens them. */
  function Shared(pipType: string, rootId: string, sha256: string, rest: string): string {
    "{" + Pair("protocol", "nostr-dag-transfer")
    + ("," + Quoted("version")
    + (":1," + Pair("type", pipType)
    + ("," + Pair("root_id", rootId)
    + ("," + Pair("sha256", sha256)
    + rest))))
  }

  function AttestContent(rootId: string, sha256: string, manifestId: string): string {
    Shared("attest", rootId, sha256, "," + Pair("manifest_id", manifestId) + "}")
  }

  function JoinContent(rootId: string, sha256: string, sealId: string): string {
    Shared("join", rootId, sha256, "," + Pair("seal_id", sealId) + "}")
  }

  /** The quoted ids separated by commas, and what follows them. */
  function IdList(ids: seq<string>, rest: string): string {
    if ids == [] then rest
    else Quoted(ids[0]) + (if |ids| == 1 then rest else "," + IdList(ids[1..], rest))
  }

  function SealContent(rootId: string, sha256: string, attestIds: seq<string>): string {
    Shared("seal", rootId, sha256, "," + Quoted("attest_ids") + (":[" + IdList(attestIds, "]}")))
  }

  lemma HeadText()
    ensures "{" + Pair("protocol", "nostr-dag-transfer") == "{\"protocol\":\"nostr-dag-transfer\""
    ensures "," + Quoted("version") + ":1,\"type\":\"" == ",\"version\":1,\"type\":\""
  {
  }

  lemma HeadJoined()
    ensures "{\"protocol\":\"nostr-dag-transfer\"" + ",\"version\":1,\"type\":\""
         == "{\"protocol\":\"nostr-dag-transfer\",\"version\":1,\"type\":\""
  {
  }

  lemma FieldHeads(pipType: string, rootId: string, sha256: string)
    ensures ":1," + Pair("type", pipType) == ":1,\"type\":\"" + pipType + "\""
    ensures "," + Pair("root_id", rootId) == ",\"root_id\":\"" + rootId + "\""
    ensures "," + Pair("sha256", sha256) == ",\"sha256\":\"" + sha256 + "\""
    ensures "\"" + ",\"root_id\":\"" == "\",\"root_id\":\""
    ensures "\"" + ",\"sha256\":\"" == "\",\"sha256\":\""
  {
  }

  lemma Assembled(p: string, v: string, t0: string, t: string, r0: string, r: string, s0: string, s: string, q: string,
                  rest: string)
    ensures p + (v + ((t0 + t + q) + ((r0 + r + q) + ((s0 + s + q) + rest))))
         == p + (v + t0) + t + (q + r0) + r + (q + s0) + s + q + rest
  {
    var x := (s0 + s + q) + rest;
    var y := (r0 + r + q) + x;
    assert (t0 + t + q) + y == t0 + t + (q + r0) + r + q + x;
    assert q + x == (q + s0) + s + q + rest;
  }

  /** The shared fields, written out. */
  lemma SharedLiteral(pipType: string, rootId: string, sha256: string, rest: string)
    ensures Shared(pipType, rootId, sha256, rest)
         == "{\"protocol\":\"nostr-dag-transfer\",\"version\":1,\"type\":\"" + pipType
            + "\",\"root_id\":\"" + rootId + "\",\"sha256\":\"" + sha256 + "\"" + rest
  {
    HeadText();
    HeadJoined();
    FieldHeads(pipType, rootId, sha256);
    hide Pair, Quoted;
    Assembled("{" + Pair("protocol", "nostr-dag-transfer"), "," + Quoted("version"), ":1,\"type\":\"", pipType,
              ",\"root_id\":\"", rootId, ",\"sha256\":\"", sha256, "\"", rest);
  }

  lemma TailHeads(value: string)
    ensures "," + Pair("manifest_id", value) + "}" == ",\"manifest_id\":\"" + value + "\"}"
    ensures "," + Pair("seal_id", value) + "}" == ",\"seal_id\":\"" + value + "\"}"
  {
  }

  lemma ListHead(value: string)
    ensures "," + Quoted("attest_ids") + (":[" + value) == ",\"attest_ids\":[" + value
  {
  }

  lemma QuotedTails()
    ensures "\"" + ",\"manifest_id\":\"" == "\",\"manifest_id\":\""
    ensures "\"" + ",\"seal_id\":\"" == "\",\"seal_id\":\""
    ensures "\"" + ",\"attest_ids\":[" == "\",\"attest_ids\":["
  {
  }

  lemma Regrouped(a: string, q: string, b: string, c: string, d: string)
    ensures a + q + (b + c + d) == a + (q + b) + c + d
  {
  }

  /** The content of an attestation, written out. */
  lemma AttestText(rootId: string, sha256: string, manifestId: string)
    ensures AttestContent(rootId, sha256, manifestId)
         == "{\"protocol\":\"nostr-dag-transfer\",\"version\":1,\"type\":\"" + "attest"
            + "\",\"root_id\":\"" + rootId + "\",\"sha256\":\"" + sha256 + "\",\"manifest_id\":\"" + manifestId + "\"}"
  {
    var head := "{\"protocol\":\"nostr-dag-transfer\",\"version\":1,\"type\":\"" + "attest"
                + "\",\"root_id\":\"" + rootId + "\",\"sha256\":\"" + sha256;
    TailHeads(manifestId);
    QuotedTails();
    hide Shared, Pair;
    SharedLiteral("attest", rootId, sha256, "," + Pair("manifest_id", manifestId) + "}");
    Regrouped(head, "\"", ",\"manifest_id\":\"", manifestId, "\"}");
  }

  lemma JoinText(rootId: string, sha256: string, sealId: string)
    ensures JoinContent(rootId, sha256, sealId)
         == "{\"protocol\":\"nostr-dag-transfer\",\"version\":1,\"type\":\"" + "join"
            + "\",\"root_id\":\"" + rootId + "\",\"sha256\":\"" + sha256 + "\",\"seal_id\":\"" + sealId + "\"}"
  {
    var head := "{\"protocol\":\"nostr-dag-transfer\",\"version\":1,\"type\":\"" + "join"
                + "\",\"root_id\":\"" + rootId + "\",\"sha256\":\"" + sha256;
    TailHeads(sealId);
    QuotedTails();
    hide Shared, Pair;
    SharedLiteral("join", rootId, sha256, "," + Pair("seal_id", sealId) + "}");
    Regrouped(head, "\"", ",\"seal_id\":\"", sealId, "\"}");
  }

  lemma {:induction false} IdListRest(ids: seq<string>, rest: string)
    ensures IdList(ids, rest) == IdList(ids, "") + rest
  {
    if ids == [] {
    } else if |ids| == 1 {
    } else {
      IdListRest(ids[1..], rest);
      var more := IdList(ids[1..], "");
      assert IdList(ids, rest) == Quoted(ids[0]) + ("," + (more + rest));
      assert IdList(ids, "") == Quoted(ids[0]) + ("," + more);
    }
  }

  lemma SealText(rootId: string, sha256: string, attestIds: seq<string>)
    ensures SealContent(rootId, sha256, attestIds)
         == "{\"protocol\":\"nostr-dag-transfer\",\"version\":1,\"type\":\"" + "seal"
            + "\",\"root_id\":\"" + rootId + "\",\"sha256\":\"" + sha256 + "\",\"attest_ids\":["
            + IdList(attestIds, "") + "]}"
  {
    var head := "{\"protocol\":\"nostr-dag-transfer\",\"version\":1,\"type\":\"" + "seal"
                + "\",\"root_id\":\"" + rootId + "\",\"sha256\":\"" + sha256;
    IdListRest(attestIds, "]}");
    ListHead(IdList(attestIds, "") + "]}");
    QuotedTails();
    hide Shared, Pair, Quoted, IdList;
    SharedLiteral("seal", rootId, sha256, "," + Quoted("attest_ids") + (":[" + IdList(attestIds, "]}")));
    Regrouped(head, "\"", ",\"attest_ids\":[", IdList(attestIds, ""), "]}");
    assert ",\"attest_ids\":[" + (IdList(attestIds, "") + "]}") == ",\"attest_ids\":[" + IdList(attestIds, "") + "]}";
  }

  /** `list` is the quoted texts `ids`, all of 64 characters, with commas between. */
  ghost predicate ListsQuoted(list: string, ids: seq<string>) {
    && |list| == (if ids == [] then 0 else 67 * |ids| - 1)
    && (forall i | 0 <= i < |ids| :: list[67 * i..67 * i + 66] == "\"" + ids[i] + "\"")
    && forall i | 0 <= i < |ids| - 1 :: list[67 * i + 66] == ','
  }

  lemma ListsQuotedFront(list: string, id: string, rest: string, ids: seq<string>)
    requires |id| == 64 && ids != [] && ListsQuoted(rest, ids) && list == Quoted(id) + ("," + rest)
    ensures ListsQuoted(list, [id] + ids)
  {
    var all := [id] + ids;
    assert list[67..] == rest;
    forall i | 0 <= i < |all| ensures list[67 * i..67 * i + 66] == "\"" + all[i] + "\"" {
      if i > 0 {
        assert list[67 * i..67 * i + 66] == rest[67 * (i - 1)..67 * (i - 1) + 66];
      }
    }
    forall i | 0 <= i < |all| - 1 ensures list[67 * i + 66] == ',' {
      if i > 0 {
        assert list[67 * i + 66] == rest[67 * (i - 1) + 66];
      }
    }
  }

  /** The printed list of ids can be read back position by position. */
  lemma {:induction false} IdListReadsBack(ids: seq<string>)
    requires forall i | 0 <= i < |ids| :: |ids[i]| == 64
    ensures ListsQuoted(IdList(ids, ""), ids)
  {
    if ids == [] {
    } else if |ids| == 1 {
      assert IdList(ids, "") == "\"" + ids[0] + "\"";
    } else {
      IdListReadsBack(ids[1..]);
      assert ids == [ids[0]] + ids[1..];
      assert IdList(ids, "") == Quoted(ids[0]) + ("," + IdList(ids[1..], ""));
      hide IdList;
      ListsQuotedFront(IdList(ids, ""), ids[0], IdList(ids[1..], ""), ids[1..]);
    }
  }

  // ---- texts as segments between quotes ----

  predicate QuoteFree(s: string) {
    '"' !in s
  }

  ghost predicate AllQuoteFree(segs: seq<string>) {
    forall i | 0 <= i < |segs| :: QuoteFree(segs[i])
  }

  /** The segments with a quote between any two. */
  function Text(segs: seq<string>): string
    requires segs != []
  {
    if |segs| == 1 then segs[0] else segs[0] + "\"" + Text(segs[1..])
  }

  /** What the scanner finds, read off the segments. */
  function FieldIn(segs: seq<string>, key: string): Option<string> {
    if |segs| < 4 then None
    else if segs[1] == key && segs[2] == ":" then (if |segs| > 4 then Some(segs[3]) else None)
    else FieldIn(segs[1..], key)
  }

  lemma TextUnfold(segs: seq<string>)
    requires segs != []
    ensures |segs| == 1 ==> Text(segs) == segs[0]
    ensures |segs| > 1 ==> Text(segs) == segs[0] + "\"" + Text(segs[1..])
  {
  }

  lemma FirstQuoteUnique(t: string, x: string, y: string)
    requires QuoteFree(x) && QuoteFree(y) && x + "\"" <= t && y + "\"" <= t
    ensures x == y
  {
    var xs, ys := x + "\"", y + "\"";
    assert forall i | 0 <= i < |x| :: t[i] == xs[i] == x[i] && x[i] != '"';
    assert forall i | 0 <= i < |y| :: t[i] == ys[i] == y[i] && y[i] != '"';
    assert t[|x|] == xs[|x|] == '"' && t[|y|] == ys[|y|] == '"';
    assert |x| == |y|;
  }

  /** A quote-free string followed by a quote starts a text just when it is the first segment. */
  lemma QuoteEndsFirstSegment(segs: seq<string>, a: string, rest: string)
    requires segs != [] && AllQuoteFree(segs) && QuoteFree(a)
    ensures a + "\"" + rest <= Text(segs) <==> |segs| > 1 && segs[0] == a && rest <= Text(segs[1..])
  {
    TextUnfold(segs);
    var t, p := Text(segs), a + "\"" + rest;
    hide Text;
    assert QuoteFree(segs[0]);
    if p <= t {
      assert t[|a|] == p[|a|] == '"';
      assert |segs| > 1;
      assert a + "\"" == p[..|a| + 1] == t[..|a| + 1];
      FirstQuoteUnique(t, a, segs[0]);
      assert rest == p[|a| + 1..];
      assert Text(segs[1..]) == t[|a| + 1..];
    }
    if |segs| > 1 && segs[0] == a && rest <= Text(segs[1..]) {
      assert p <= t;
    }
  }

  lemma OccurrenceStartsWithQuote(text: string, key: string, i: nat)
    requires OccursAt(text, Needle(key), i)
    ensures i < |text| && text[i] == '"'
  {
    assert text[i] == text[i..i + |Needle(key)|][0];
  }

  lemma PrefixIsOccurrence(text: string, needle: string, i: nat)
    requires i <= |text|
    ensures OccursAt(text, needle, i) <==> needle <= text[i..]
  {
    if needle <= text[i..] {
      assert text[i..][..|needle|] == text[i..i + |needle|];
    }
    if OccursAt(text, needle, i) {
      assert text[i..][..|needle|] == text[i..i + |needle|];
    }
  }

  lemma QuoteAndRest(a: string, b: string)
    ensures "\"" + a <= "\"" + b <==> a <= b
  {
    assert ("\"" + a)[1..] == a && ("\"" + b)[1..] == b;
    if a <= b {
      assert ("\"" + b)[..|a| + 1] == "\"" + b[..|a|];
    }
    if "\"" + a <= "\"" + b {
      assert b[..|a|] == ("\"" + b)[..|a| + 1][1..];
    }
  }

  /** The needle for `key` starts at the first quote just when the next segments are `key` and `:`. */
  lemma NeedleAtFirstQuote(segs: seq<string>, key: string)
    requires |segs| > 1 && AllQuoteFree(segs) && QuoteFree(key)
    ensures OccursAt(Text(segs), Needle(key), |segs[0]|) <==> |segs| > 3 && segs[1] == key && segs[2] == ":"
  {
    var t := Text(segs);
    TextUnfold(segs);
    PrefixIsOccurrence(t, Needle(key), |segs[0]|);
    assert t[|segs[0]|..] == "\"" + Text(segs[1..]);
    assert Needle(key) == "\"" + (key + "\"" + ":\"");
    QuoteAndRest(key + "\"" + ":\"", Text(segs[1..]));
    QuoteEndsFirstSegment(segs[1..], key, ":\"");
    if |segs| > 2 {
      assert segs[1..][1..] == segs[2..];
      assert ":" + "\"" + "" == ":\"";
      QuoteEndsFirstSegment(segs[2..], ":", "");
    }
    hide Text, OccursAt, Needle;
  }

  /** Before its first quote a text holds no needle; after it, the needles of the remaining segments. */
  lemma NeedleElsewhere(segs: seq<string>, key: string, i: nat)
    requires |segs| > 1 && AllQuoteFree(segs)
    ensures i < |segs[0]| ==> !OccursAt(Text(segs), Needle(key), i)
    ensures i > |segs[0]| ==>
              (OccursAt(Text(segs), Needle(key), i) <==> OccursAt(Text(segs[1..]), Needle(key), i - |segs[0]| - 1))
  {
    var t := Text(segs);
    TextUnfold(segs);
    assert QuoteFree(segs[0]);
    assert i < |segs[0]| ==> t[i] == segs[0][i];
    if i < |segs[0]| && OccursAt(t, Needle(key), i) {
      OccurrenceStartsWithQuote(t, key, i);
    }
    if |segs[0]| < i {
      var k := |segs[0]| + 1;
      assert Text(segs[1..]) == t[k..];
      if i + |Needle(key)| <= |t| {
        assert t[i..i + |Needle(key)|] == t[k..][i - k..i - k + |Needle(key)|];
      }
    }
  }

  lemma OneSegmentHasNoNeedle(segs: seq<string>, key: string, i: nat)
    requires |segs| == 1 && AllQuoteFree(segs)
    ensures !OccursAt(Text(segs), Needle(key), i)
  {
    assert QuoteFree(segs[0]) && Text(segs) == segs[0];
    if OccursAt(Text(segs), Needle(key), i) {
      OccurrenceStartsWithQuote(Text(segs), key, i);
    }
  }

  lemma FieldNowhere(raw: string, key: string)
    requires forall j: nat :: !OccursAt(raw, Needle(key), j)
    ensures Field(raw, key) == None
  {
  }

  /** Where the needle for `key` first starts: before segment `j + 1`, the least `j` at which the
      next segments are `key` and `:`. */
  ghost predicate FirstNeedle(segs: seq<string>, key: string, at: nat)
    requires segs != []
  {
    OccursAt(Text(segs), Needle(key), at) && forall j | 0 <= j < at :: !OccursAt(Text(segs), Needle(key), j)
  }

  /** `Field` returns the text up to the next quote after the first occurrence of the needle. */
  lemma FieldAtFirst(segs: seq<string>, key: string, at: nat)
    requires segs != [] && FirstNeedle(segs, key, at)
    ensures at + |Needle(key)| <= |Text(segs)|
    ensures Field(Text(segs), key) ==
            match FindFrom(Text(segs), "\"", at + |Needle(key)|)
            case None => None
            case Some(end) => Some(Text(segs)[at + |Needle(key)|..end])
  {
  }

  lemma NeedleHere(segs: seq<string>, key: string)
    requires |segs| > 3 && AllQuoteFree(segs) && QuoteFree(key) && segs[1] == key && segs[2] == ":"
    ensures FirstNeedle(segs, key, |segs[0]|)
  {
    NeedleAtFirstQuote(segs, key);
    forall j | 0 <= j < |segs[0]| ensures !OccursAt(Text(segs), Needle(key), j) {
      NeedleElsewhere(segs, key, j);
    }
    hide OccursAt, Needle, Text;
  }

  lemma NeedleLater(segs: seq<string>, key: string, at: nat)
    requires |segs| > 1 && AllQuoteFree(segs) && QuoteFree(key) && !(|segs| > 3 && segs[1] == key && segs[2] == ":")
    requires FirstNeedle(segs[1..], key, at)
    ensures FirstNeedle(segs, key, |segs[0]| + 1 + at)
  {
    hide OccursAt, Needle, Text;
    NeedleAtFirstQuote(segs, key);
    NeedleElsewhere(segs, key, |segs[0]| + 1 + at);
    forall j | 0 <= j < |segs[0]| + 1 + at ensures !OccursAt(Text(segs), Needle(key), j) {
      NeedleElsewhere(segs, key, j);
    }
  }

  lemma NeedleNever(segs: seq<string>, key: string)
    requires |segs| > 1 && AllQuoteFree(segs) && QuoteFree(key) && !(|segs| > 3 && segs[1] == key && segs[2] == ":")
    requires forall j: nat :: !OccursAt(Text(segs[1..]), Needle(key), j)
    ensures forall j: nat :: !OccursAt(Text(segs), Needle(key), j)
  {
    hide OccursAt, Needle, Text;
    NeedleAtFirstQuote(segs, key);
    forall j: nat ensures !OccursAt(Text(segs), Needle(key), j) {
      NeedleElsewhere(segs, key, j);
    }
  }

  lemma TextAfterNeedle(segs: seq<string>, key: string)
    requires |segs| > 3 && segs[1] == key && segs[2] == ":"
    ensures |segs[0]| + |Needle(key)| <= |Text(segs)|
    ensures Text(segs)[|segs[0]| + |Needle(key)|..] == Text(segs[3..])
  {
    TextUnfold(segs);
    TextUnfold(segs[1..]);
    TextUnfold(segs[2..]);
    hide Text;
    assert segs[1..][1..] == segs[2..] && segs[2..][1..] == segs[3..];
    assert Text(segs) == segs[0] + Needle(key) + Text(segs[3..]);
  }

  /** The segment that holds the value of the first `key` field. */
  function ValueIndex(segs: seq<string>, key: string): (r: Option<nat>)
    ensures r.Some? ==> 3 <= r.value < |segs|
  {
    if |segs| < 4 then None
    else if segs[1] == key && segs[2] == ":" then Some(3)
    else match ValueIndex(segs[1..], key)
      case None => None
      case Some(v) => Some(v + 1)
  }

  /** The text after the first needle is that of the segments from the value on. */
  lemma {:induction false} NeedleSplits(segs: seq<string>, key: string)
    requires segs != [] && AllQuoteFree(segs) && QuoteFree(key)
    ensures ValueIndex(segs, key) == None ==> forall j: nat :: !OccursAt(Text(segs), Needle(key), j)
    ensures ValueIndex(segs, key).Some? ==>
              exists at: nat :: FirstNeedle(segs, key, at) && at + |Needle(key)| <= |Text(segs)|
                && Text(segs)[at + |Needle(key)|..] == Text(segs[ValueIndex(segs, key).value..])
    decreases |segs|
  {
    if |segs| == 1 {
      forall j: nat { OneSegmentHasNoNeedle(segs, key, j); }
    } else if |segs| > 3 && segs[1] == key && segs[2] == ":" {
      NeedleHere(segs, key);
      TextAfterNeedle(segs, key);
    } else {
      NeedleSplits(segs[1..], key);
      hide OccursAt, Needle, Text, FirstNeedle;
      if ValueIndex(segs[1..], key) == None {
        NeedleNever(segs, key);
      } else {
        var v := ValueIndex(segs[1..], key).value;
        var at: nat :| FirstNeedle(segs[1..], key, at) && at + |Needle(key)| <= |Text(segs[1..])| && Text(segs[1..])[at + |Needle(key)|..] == Text(segs[1..][v..]);
        NeedleLater(segs, key, at);
        TextUnfold(segs);
        assert segs[1..][v..] == segs[v + 1..];
        assert Text(segs)[|segs[0]| + 1..] == Text(segs[1..]);
        assert Text(segs)[|segs[0]| + 1 + at + |Needle(key)|..] == Text(segs[1..])[at + |Needle(key)|..];
      }
    }
  }

  lemma {:induction false} FieldInByIndex(segs: seq<string>, key: string)
    ensures FieldIn(segs, key) ==
            match ValueIndex(segs, key)
            case None => None
            case Some(v) => if v + 1 < |segs| then Some(segs[v]) else None
  {
    if |segs| < 4 || (segs[1] == key && segs[2] == ":") {
    } else {
      FieldInByIndex(segs[1..], key);
    }
  }

  /** From the start of a segment, the next quote ends the segment. */
  lemma NextQuote(raw: string, start: nat, segs: seq<string>)
    requires start <= |raw| && segs != [] && AllQuoteFree(segs) && raw[start..] == Text(segs)
    ensures match FindFrom(raw, "\"", start)
            case None => |segs| == 1
            case Some(end) => |segs| > 1 && raw[start..end] == segs[0]
  {
    TextUnfold(segs);
    var t := Text(segs);
    hide Text;
    assert QuoteFree(segs[0]);
    assert forall i | 0 <= i < |t| :: raw[start + i] == raw[start..][i] == t[i];
    if |segs| > 1 {
      var end := start + |segs[0]|;
      assert t[|segs[0]|] == '"';
      assert raw[end..end + 1] == [raw[end]];
      assert OccursAt(raw, "\"", end);
    }
    match FindFrom(raw, "\"", start)
    case None =>
    case Some(end) =>
      assert raw[end..end + 1][0] == '"' == raw[end] == t[end - start];
      assert raw[start..end] == t[..end - start];
      assert |segs| > 1 && end - start == |segs[0]|;
  }

  lemma ValueAfterNeedle(segs: seq<string>, key: string, at: nat, v: nat)
    requires v < |segs| && AllQuoteFree(segs) && FirstNeedle(segs, key, at)
    requires at + |Needle(key)| <= |Text(segs)| && Text(segs)[at + |Needle(key)|..] == Text(segs[v..])
    ensures Field(Text(segs), key) == if v + 1 < |segs| then Some(segs[v]) else None
  {
    hide Text, OccursAt, Needle, FirstNeedle;
    FieldAtFirst(segs, key, at);
    hide Field;
    NextQuote(Text(segs), at + |Needle(key)|, segs[v..]);
  }

  /** The scanner, on any text made of quote-free segments, finds the segment after the first `key`
      and `:` segments. */
  lemma FieldIsSegment(segs: seq<string>, key: string)
    requires segs != [] && AllQuoteFree(segs) && QuoteFree(key)
    ensures Field(Text(segs), key) == FieldIn(segs, key)
  {
    hide Text, OccursAt, Needle, FieldIn, ValueIndex, FirstNeedle, Field;
    NeedleSplits(segs, key);
    FieldInByIndex(segs, key);
    if ValueIndex(segs, key) == None {
      FieldNowhere(Text(segs), key);
    } else {
      var v := ValueIndex(segs, key).value;
      var at: nat :| FirstNeedle(segs, key, at) && at + |Needle(key)| <= |Text(segs)| && Text(segs)[at + |Needle(key)|..] == Text(segs[v..]);
      ValueAfterNeedle(segs, key, at, v);
    }
  }

  /** The scanner never returns a text with a quote in it. */
  lemma FieldIsQuoteFree(raw: string, key: string)
    ensures Field(raw, key).Some? ==> QuoteFree(Field(raw, key).value)
  {
    hide Needle;
    match FindFrom(raw, Needle(key), 0)
    case None =>
    case Some(found) =>
      var start := found + |Needle(key)|;
      match FindFrom(raw, "\"", start) {
        case None =>
        case Some(end) =>
          forall j | start <= j < end ensures raw[j] != '"' {
            assert raw[j..j + 1] == [raw[j]];
            assert !OccursAt(raw, "\"", j);
          }
      }
  }

  /** What the scanner accepts has quote-free fields. */
  lemma ParsedIsQuoteFree(raw: string)
    requires ParsePipContent(raw).Some?
    ensures var pip := ParsePipContent(raw).value; QuoteFree(pip.pipType) && QuoteFree(pip.rootId) && QuoteFree(pip.sha256)
  {
    hide Field;
    FieldIsQuoteFree(raw, "type");
    FieldIsQuoteFree(raw, "root_id");
    FieldIsQuoteFree(raw, "sha256");
  }

  /** Any text as segments between quotes. */
  function Segments(text: string): (segs: seq<string>)
    ensures segs != []
  {
    if text == "" then [""]
    else
      var rest := Segments(text[1..]);
      if text[0] == '"' then [""] + rest else [[text[0]] + rest[0]] + rest[1..]
  }

  lemma TextOfOne(seg: string)
    ensures Text([seg]) == seg
  {
  }

  lemma {:induction false} SegmentsOfText(text: string)
    ensures AllQuoteFree(Segments(text)) && Text(Segments(text)) == text
  {
    if text == "" {
      TextOfOne("");
    } else {
      var rest := Segments(text[1..]);
      var segs := Segments(text);
      SegmentsOfText(text[1..]);
      assert text == [text[0]] + text[1..];
      TextUnfold(segs);
      TextUnfold(rest);
      if text[0] == '"' {
        assert segs[1..] == rest;
      } else {
        assert segs[1..] == rest[1..];
        assert QuoteFree(rest[0]);
      }
      hide Text, Segments;
    }
  }

  // ---- the scanner inverts the printers ----

  lemma TextOfPair(a: string, key: string, value: string, rest: seq<string>)
    requires rest != []
    ensures Text([a, key, ":", value] + rest) == a + Pair(key, value) + Text(rest)
  {
    var segs := [a, key, ":", value] + rest;
    assert segs[1..] == [key, ":", value] + rest;
    assert segs[1..][1..] == [":", value] + rest;
    assert segs[1..][1..][1..] == [value] + rest;
    assert segs[1..][1..][1..][1..] == rest;
    TextUnfold(segs);
    TextUnfold(segs[1..]);
    TextUnfold(segs[1..][1..]);
    TextUnfold(segs[1..][1..][1..]);
  }

  lemma TextOfQuoted(a: string, word: string, rest: seq<string>)
    requires rest != []
    ensures Text([a, word] + rest) == a + Quoted(word) + Text(rest)
  {
    var segs := [a, word] + rest;
    assert segs[1..] == [word] + rest;
    assert segs[1..][1..] == rest;
    TextUnfold(segs);
    TextUnfold(segs[1..]);
  }

  ghost function SharedSegs(pipType: string, rootId: string, sha256: string, rest: seq<string>): seq<string> {
    ["{", "protocol", ":", "nostr-dag-transfer"]
    + ([",", "version"]
    + ([":1,", "type", ":", pipType]
    + ([",", "root_id", ":", rootId]
    + ([",", "sha256", ":", sha256]
    + rest))))
  }

  lemma SharedText(pipType: string, rootId: string, sha256: string, rest: seq<string>)
    requires rest != []
    ensures Text(SharedSegs(pipType, rootId, sha256, rest)) == Shared(pipType, rootId, sha256, Text(rest))
  {
    var e := [",", "sha256", ":", sha256] + rest;
    var d := [",", "root_id", ":", rootId] + e;
    var c := [":1,", "type", ":", pipType] + d;
    var b := [",", "version"] + c;
    hide Text, Pair, Quoted;
    TextOfPair("{", "protocol", "nostr-dag-transfer", b);
    TextOfQuoted(",", "version", c);
    TextOfPair(":1,", "type", pipType, d);
    TextOfPair(",", "root_id", rootId, e);
    TextOfPair(",", "sha256", sha256, rest);
  }

  // Stepping over fields. No segment that opens a field or follows a value is a key or a colon.

  predicate Separates(seg: string, key: string) {
    seg != key && seg != ":" && key != ":"
  }

  lemma SkipPair(a: string, other: string, value: string, rest: seq<string>, key: string)
    requires other != key && rest != [] && Separates(rest[0], key)
    ensures FieldIn([a, other, ":", value] + rest, key) == FieldIn(rest, key)
  {
    var segs := [a, other, ":", value] + rest;
    assert segs[1..] == [other, ":", value] + rest;
    assert segs[1..][1..] == [":", value] + rest;
    assert segs[1..][1..][1..] == [value] + rest;
    assert segs[1..][1..][1..][1..] == rest;
    assert FieldIn([value] + rest, key) == FieldIn(rest, key);
    assert FieldIn([":", value] + rest, key) == FieldIn([value] + rest, key);
    assert FieldIn([other, ":", value] + rest, key) == FieldIn([":", value] + rest, key);
  }

  lemma HitPair(a: string, value: string, rest: seq<string>, key: string)
    requires rest != []
    ensures FieldIn([a, key, ":", value] + rest, key) == Some(value)
  {
  }

  lemma SkipQuoted(a: string, word: string, rest: seq<string>, key: string)
    requires rest != [] && Separates(rest[0], key)
    ensures FieldIn([a, word] + rest, key) == FieldIn(rest, key)
  {
    var segs := [a, word] + rest;
    assert segs[1..] == [word] + rest;
    assert segs[1..][1..] == rest;
  }

  /** Whatever the values are, the shared fields are found at their places, and any other key is
      looked up in what follows them. */
  lemma SharedFields(pipType: string, rootId: string, sha256: string, rest: seq<string>, key: string)
    requires rest != [] && rest[0] == ","
    requires Separates(",", key) && Separates(":1,", key) && key != "protocol"
    ensures FieldIn(SharedSegs(pipType, rootId, sha256, rest), key) ==
            if key == "type" then Some(pipType)
            else if key == "root_id" then Some(rootId)
            else if key == "sha256" then Some(sha256)
            else FieldIn(rest, key)
  {
    var e := [",", "sha256", ":", sha256] + rest;
    var d := [",", "root_id", ":", rootId] + e;
    var c := [":1,", "type", ":", pipType] + d;
    var b := [",", "version"] + c;
    hide FieldIn;
    SkipPair("{", "protocol", "nostr-dag-transfer", b, key);
    SkipQuoted(",", "version", c, key);
    if key == "type" {
      HitPair(":1,", pipType, d, key);
    } else {
      SkipPair(":1,", "type", pipType, d, key);
      if key == "root_id" {
        HitPair(",", rootId, e, key);
      } else {
        SkipPair(",", "root_id", rootId, e, key);
        if key == "sha256" {
          HitPair(",", sha256, rest, key);
        } else {
          SkipPair(",", "sha256", sha256, rest, key);
        }
      }
    }
  }

  lemma SharedSegsQuoteFree(pipType: string, rootId: string, sha256: string, rest: seq<string>)
    requires AllQuoteFree(rest) && QuoteFree(pipType) && QuoteFree(rootId) && QuoteFree(sha256)
    ensures AllQuoteFree(SharedSegs(pipType, rootId, sha256, rest))
  {
  }

  predicate IsPipKey(key: string) {
    key == "type" || key == "root_id" || key == "sha256" || key == "seal_id"
  }

  lemma PipKeySeparates(key: string)
    requires IsPipKey(key)
    ensures QuoteFree(key) && Separates(",", key) && Separates(":1,", key) && key != "protocol"
  {
  }

  lemma ScanField(pipType: string, rootId: string, sha256: string, rest: seq<string>, key: string)
    requires AllQuoteFree(SharedSegs(pipType, rootId, sha256, rest)) && IsPipKey(key)
    requires rest != [] && rest[0] == ","
    ensures Field(Text(SharedSegs(pipType, rootId, sha256, rest)), key) ==
            if key == "type" then Some(pipType)
            else if key == "root_id" then Some(rootId)
            else if key == "sha256" then Some(sha256)
            else FieldIn(rest, key)
  {
    assert SharedSegs(pipType, rootId, sha256, rest) != [];
    PipKeySeparates(key);
    hide IsPipKey, Separates, QuoteFree, Text, SharedSegs, Field, FieldIn, AllQuoteFree;
    SharedFields(pipType, rootId, sha256, rest, key);
    FieldIsSegment(SharedSegs(pipType, rootId, sha256, rest), key);
  }

  /** Scanning a printed content returns the type, root id and digest written, and for the seal id
      whatever the remaining segments say. */
  lemma ScanShared(pipType: string, rootId: string, sha256: string, rest: seq<string>)
    requires rest != [] && rest[0] == "," && AllQuoteFree(rest)
    requires QuoteFree(pipType) && QuoteFree(rootId) && QuoteFree(sha256)
    ensures ParsePipContent(Shared(pipType, rootId, sha256, Text(rest)))
         == Some(PipContent(pipType, rootId, sha256, FieldIn(rest, "seal_id")))
  {
    SharedSegsQuoteFree(pipType, rootId, sha256, rest);
    SharedText(pipType, rootId, sha256, rest);
    hide Text, Shared, SharedSegs, Field, FieldIn, AllQuoteFree, QuoteFree;
    ScanField(pipType, rootId, sha256, rest, "type");
    ScanField(pipType, rootId, sha256, rest, "root_id");
    ScanField(pipType, rootId, sha256, rest, "sha256");
    ScanField(pipType, rootId, sha256, rest, "seal_id");
  }

  /** The scanner gives back the values written exactly when they are quote-free. */
  lemma ScansBack(pipType: string, rootId: string, sha256: string, rest: seq<string>)
    requires rest != [] && rest[0] == "," && AllQuoteFree(rest) && QuoteFree(pipType)
    ensures ParsePipContent(Shared(pipType, rootId, sha256, Text(rest)))
         == Some(PipContent(pipType, rootId, sha256, FieldIn(rest, "seal_id")))
       <==> QuoteFree(rootId) && QuoteFree(sha256)
  {
    var raw := Shared(pipType, rootId, sha256, Text(rest));
    hide Text, Shared, FieldIn, AllQuoteFree, QuoteFree, ParsePipContent;
    if ParsePipContent(raw).Some? { ParsedIsQuoteFree(raw); }
    if QuoteFree(rootId) && QuoteFree(sha256) { ScanShared(pipType, rootId, sha256, rest); }
  }

  /** Whatever the root id and the rest are, quotes included, the type read is the type printed. */
  lemma PrintedTypeIsRead(pipType: string, rootId: string, sha256: string, rest: string)
    requires QuoteFree(pipType)
    ensures Field(Shared(pipType, rootId, sha256, rest), "type") == Some(pipType)
  {
    var tail := "," + Pair("root_id", rootId) + ("," + Pair("sha256", sha256) + rest);
    var d := Segments(tail);
    SegmentsOfText(tail);
    var c := [":1,", "type", ":", pipType] + d;
    var b := [",", "version"] + c;
    var segs := ["{", "protocol", ":", "nostr-dag-transfer"] + b;
    assert QuoteFree("type") && AllQuoteFree(segs);
    SkipPair("{", "protocol", "nostr-dag-transfer", b, "type");
    SkipQuoted(",", "version", c, "type");
    HitPair(":1,", pipType, d, "type");
    TextOfPair("{", "protocol", "nostr-dag-transfer", b);
    TextOfQuoted(",", "version", c);
    TextOfPair(":1,", "type", pipType, d);
    hide Text, Segments, Pair, Quoted, Field, FieldIn, QuoteFree;
    FieldIsSegment(segs, "type");
    assert Text(segs) == Shared(pipType, rootId, sha256, rest);
  }

  lemma ScanAttest(rootId: string, sha256: string, manifestId: string)
    requires QuoteFree(manifestId)
    ensures ParsePipContent(AttestContent(rootId, sha256, manifestId))
         == Some(PipContent("attest", rootId, sha256, None))
       <==> QuoteFree(rootId) && QuoteFree(sha256)
  {
    var rest := [",", "manifest_id", ":", manifestId] + ["}"];
    assert AllQuoteFree(rest);
    TextOfPair(",", "manifest_id", manifestId, ["}"]);
    SkipPair(",", "manifest_id", manifestId, ["}"], "seal_id");
    hide Shared, ParsePipContent, Text;
    TextOfOne("}");
    ScansBack("attest", rootId, sha256, rest);
  }

  lemma ScanJoin(rootId: string, sha256: string, sealId: string)
    requires QuoteFree(sealId)
    ensures ParsePipContent(JoinContent(rootId, sha256, sealId))
         == Some(PipContent("join", rootId, sha256, Some(sealId)))
       <==> QuoteFree(rootId) && QuoteFree(sha256)
  {
    var rest := [",", "seal_id", ":", sealId] + ["}"];
    assert AllQuoteFree(rest);
    TextOfPair(",", "seal_id", sealId, ["}"]);
    HitPair(",", sealId, ["}"], "seal_id");
    hide Shared, ParsePipContent, Text;
    TextOfOne("}");
    ScansBack("join", rootId, sha256, rest);
  }

  ghost function IdSegs(head: string, ids: seq<string>, last: string): (segs: seq<string>)
    ensures segs != []
    ensures segs[0] == if ids == [] then head + last else head
    decreases |ids|
  {
    if ids == [] then [head + last]
    else [head, ids[0]] + IdSegs(if |ids| == 1 then "" else ",", ids[1..], last)
  }

  lemma {:induction false} IdSegsText(head: string, ids: seq<string>, last: string)
    ensures Text(IdSegs(head, ids, last)) == head + IdList(ids, last)
    decreases |ids|
  {
    hide Text;
    if ids == [] {
      TextOfOne(head + last);
    } else {
      var next := if |ids| == 1 then "" else ",";
      IdSegsText(next, ids[1..], last);
      TextOfQuoted(head, ids[0], IdSegs(next, ids[1..], last));
    }
  }

  lemma {:induction false} IdSegsHaveNoField(head: string, ids: seq<string>, last: string, key: string)
    requires Separates(",", key) && Separates(last, key) && Separates("", key)
    ensures FieldIn(IdSegs(head, ids, last), key) == None
    decreases |ids|
  {
    if ids == [] {
    } else {
      var next := if |ids| == 1 then "" else ",";
      var rest := IdSegs(next, ids[1..], last);
      IdSegsHaveNoField(next, ids[1..], last, key);
      assert "" + last == last;
      assert rest[0] == if |ids| == 1 then last else ",";
      hide FieldIn;
      SkipQuoted(head, ids[0], rest, key);
    }
  }

  lemma {:induction false} IdSegsQuoteFree(head: string, ids: seq<string>, last: string)
    requires AllQuoteFree(ids) && QuoteFree(head) && QuoteFree(last)
    ensures AllQuoteFree(IdSegs(head, ids, last))
    decreases |ids|
  {
    if ids == [] {
    } else {
      var next := if |ids| == 1 then "" else ",";
      IdSegsQuoteFree(next, ids[1..], last);
      assert QuoteFree(ids[0]);
    }
  }

  /** Scanning a seal, whatever attestations it lists, finds no `seal_id`. */
  lemma ScanSeal(rootId: string, sha256: string, attestIds: seq<string>)
    requires AllQuoteFree(attestIds)
    ensures ParsePipContent(SealContent(rootId, sha256, attestIds))
         == Some(PipContent("seal", rootId, sha256, None))
       <==> QuoteFree(rootId) && QuoteFree(sha256)
  {
    var ids := IdSegs(":[", attestIds, "]}");
    var rest := [",", "attest_ids"] + ids;
    IdSegsQuoteFree(":[", attestIds, "]}");
    IdSegsText(":[", attestIds, "]}");
    IdSegsHaveNoField(":[", attestIds, "]}", "seal_id");
    assert ":[" + "]}" == ":[]}";
    SkipQuoted(",", "attest_ids", ids, "seal_id");
    TextOfQuoted(",", "attest_ids", ids);
    hide Shared, ParsePipContent, Text, IdList, FieldIn, IdSegs;
    assert AllQuoteFree(rest);
    assert Text(rest) == "," + Quoted("attest_ids") + (":[" + IdList(attestIds, "]}"));
    ScansBack("seal", rootId, sha256, rest);
  }

  // ---- hexadecimal ids ----

  function HexDigits(n: nat, digits: nat): string {
    if digits == 0 then "" else HexDigits(n / 16, digits - 1) + ["0123456789abcdef"[n % 16]]
  }

  /** `to_hex`: 64 lowercase digits. */
  function ToHex(id: EventId): string {
    HexDigits(id, 64)
  }

  lemma {:induction false} HexIsQuoteFree(n: nat, digits: nat)
    ensures QuoteFree(HexDigits(n, digits))
  {
    if digits == 0 {
    } else {
      HexIsQuoteFree(n / 16, digits - 1);
    }
  }

  lemma {:induction false} HexDigitsSize(n: nat, digits: nat)
    ensures |HexDigits(n, digits)| == digits
    ensures digits > 0 ==> HexDigits(n, digits) == HexDigits(n / 16, digits - 1) + ["0123456789abcdef"[n % 16]]
  {
    if digits == 0 {
    } else {
      HexDigitsSize(n / 16, digits - 1);
    }
  }

  /** Digit `k` of `digits` is the value of the `k`-th group of four bits, the highest first. */
  lemma {:induction false} HexDigitAt(n: nat, digits: nat, k: nat)
    requires k < digits
    ensures |HexDigits(n, digits)| == digits
    ensures HexDigits(n, digits)[k] == "0123456789abcdef"[(n / Pow2(4 * (digits - 1 - k))) % 16]
  {
    HexDigitsSize(n, digits);
    assert Pow2(0) == 1 && Pow2(4) == 16;
    hide HexDigits, Pow2;
    if k == digits - 1 {
    } else {
      var rest := 4 * (digits - 2 - k);
      HexDigitsSize(n / 16, digits - 1);
      HexDigitAt(n / 16, digits - 1, k);
      Pow2Sum(4, rest);
      DivideTwice(n, 16, Pow2(rest));
    }
  }

  /** An id prints as its 64 hexadecimal digits. */
  lemma ToHexDigits(id: EventId, k: nat)
    requires k < 64
    ensures |ToHex(id)| == 64 && ToHex(id)[k] == "0123456789abcdef"[(id / Pow2(4 * (63 - k))) % 16]
  {
    hide HexDigits;
    HexDigitAt(id, 64, k);
  }

  ghost predicate Is32Bytes(id: EventId) {
    id < Pow2(256)
  }

  lemma HexDigit(n: nat, m: nat)
    requires n < 16 && m < 16 && "0123456789abcdef"[n] == "0123456789abcdef"[m]
    ensures n == m
  {
  }

  /** Numbers with the same digits are equal. */
  lemma {:induction false} HexDigitsInjective(n: nat, m: nat, digits: nat)
    requires n < Pow2(4 * digits) && m < Pow2(4 * digits) && HexDigits(n, digits) == HexDigits(m, digits)
    ensures n == m
  {
    if digits == 0 {
    } else {
      var s, t := HexDigits(n, digits), HexDigits(m, digits);
      assert HexDigits(n / 16, digits - 1) == s[..|s| - 1] == t[..|t| - 1] == HexDigits(m / 16, digits - 1);
      HexDigit(n % 16, m % 16);
      Pow2Sum(4, 4 * (digits - 1));
      assert Pow2(4) == 16;
      HexDigitsInjective(n / 16, m / 16, digits - 1);
    }
  }

  /** Different 32-byte ids print differently. */
  lemma ToHexInjective(a: EventId, b: EventId)
    requires Is32Bytes(a) && Is32Bytes(b) && ToHex(a) == ToHex(b)
    ensures a == b
  {
    hide Pow2, HexDigits;
    assert 256 == 4 * 64;
    HexDigitsInjective(a, b, 64);
  }
}
