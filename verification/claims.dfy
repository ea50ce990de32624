/** The claim data model of the identity dapp: the closed set of claim types,
    their drafts and display assets, the claim record, the map of claims keyed
    by type name, extraction of a draft from stored credential content, and
    the unsaved-draft test. */
module Claims {
  import opened Wrappers
  import opened JsValues
  import opened Equality
  import opened Strings

  /* ----- Claim types ----- */

  /** The claim types the UI supports. A `match` over it is checked for
      exhaustiveness, which is what the dapp's `exhaustiveCheck` does. */
  datatype ClaimType = Basic | Twitter

  /** The string form of a claim type, used as its key in a claim map. */
  function TypeName(ct: ClaimType): string {
    match ct
    case Basic => "basic"
    case Twitter => "twitter"
  }

  /** All claim types, in the order `addDefaults` visits them. */
  const ClaimTypes: seq<ClaimType> := [Basic, Twitter]

  lemma TypeNameInjective(a: ClaimType, b: ClaimType)
    ensures TypeName(a) == TypeName(b) <==> a == b
  {
  }

  lemma ClaimTypesComplete(ct: ClaimType)
    ensures ct in ClaimTypes
  {
  }

  /** The names of all claim types are exactly the two map keys. */
  lemma ClaimTypeNames()
    ensures (set t | t in ClaimTypes :: TypeName(t)) == {"basic", "twitter"}
  {
    assert Basic in ClaimTypes && Twitter in ClaimTypes;
  }

  /* ----- Classifying a credential ----- */

  /** The `switch` on one entry of a credential's `type` array. */
  function Recognize(v: Json): (r: Option<ClaimType>)
    ensures r == Some(Twitter) <==> v == JStr("TwitterVerification")
    ensures r == Some(Basic) <==> v == JStr("BasicProfile")
  {
    if v == JStr("TwitterVerification") then Some(Twitter)
    else if v == JStr("BasicProfile") then Some(Basic)
    else None
  }

  /** `vc.type`, when `vc` has a `type` property holding an array. */
  function TypeList(vc: Json): (r: Option<seq<Json>>)
    ensures r.Some? <==> IsObject(vc) && "type" in Keys(vc) && Get(vc, "type").JArr?
    ensures r.Some? ==> Get(vc, "type").items == r.value
    ensures !vc.JObj? ==> r.None?
  {
    NoTypeIndex(if vc.JArr? then |vc.items| else 0);
    if IsObject(vc) && "type" in Keys(vc) && Get(vc, "type").JArr? then
      Some(Get(vc, "type").items)
    else
      None
  }

  /** Entry `j` is recognized and no entry before it is. */
  ghost predicate FirstRecognizedAt(items: seq<Json>, j: nat) {
    && j < |items|
    && Recognize(items[j]).Some?
    && forall m :: 0 <= m < j ==> Recognize(items[m]).None?
  }

  /** The scanning loop of `claimTypeFromVC`, from index `i` on. */
  function ScanTypes(items: seq<Json>, i: nat): (r: Option<ClaimType>)
    requires i <= |items|
    ensures r.None? <==> forall j :: i <= j < |items| ==> Recognize(items[j]).None?
    ensures r.Some? ==>
      exists j :: i <= j < |items| && r == Recognize(items[j]) &&
        forall m :: i <= m < j ==> Recognize(items[m]).None?
    decreases |items| - i
  {
    if i == |items| then None
    else if Recognize(items[i]).Some? then Recognize(items[i])
    else ScanTypes(items, i + 1)
  }

  /** `claimTypeFromVC(vc)`, with `None` for `false`: no verdict without a
      `type` array, otherwise the type of the first recognized entry. */
  function ClaimTypeFromVC(vc: Json): (r: Option<ClaimType>)
    ensures TypeList(vc).None? ==> r.None?
    ensures TypeList(vc).Some? ==>
      (r.Some? <==> exists j :: 0 <= j < |TypeList(vc).value| && Recognize(TypeList(vc).value[j]).Some?)
    ensures r.Some? ==>
      exists j: nat :: FirstRecognizedAt(TypeList(vc).value, j) && r == Recognize(TypeList(vc).value[j])
  {
    match TypeList(vc)
    case None => None
    case Some(items) => ScanTypes(items, 0)
  }

  /** A credential typed only "BasicProfile" is basic; one with only an
      unknown type, or with no `type` at all, is not classified; with both
      known types, the earlier entry decides. */
  lemma ClaimTypeFromVCExamples()
    ensures ClaimTypeFromVC(JObj([("type", JArr([JStr("BasicProfile")]))])) == Some(Basic)
    ensures ClaimTypeFromVC(JObj([("type", JArr([JStr("Unknown")]))])) == None
    ensures ClaimTypeFromVC(JObj([])) == None
    ensures ClaimTypeFromVC(JObj([("type", JArr([JStr("VerifiableCredential"),
              JStr("TwitterVerification"), JStr("BasicProfile")]))])) == Some(Twitter)
  {
    assert ClaimTypeFromVC(JObj([("type", JArr([JStr("BasicProfile")]))])) == Some(Basic) by {
      TypedExample([JStr("BasicProfile")]);
    }
    assert ClaimTypeFromVC(JObj([("type", JArr([JStr("Unknown")]))])) == None by {
      TypedExample([JStr("Unknown")]);
    }
    var both := [JStr("VerifiableCredential"), JStr("TwitterVerification"), JStr("BasicProfile")];
    assert ClaimTypeFromVC(JObj([("type", JArr(both))])) == Some(Twitter) by {
      TypedExample(both);
      assert Recognize(both[0]).None? && Recognize(both[1]) == Some(Twitter);
    }
  }

  /** A credential whose only property is a `type` array is classified by
      that array. */
  lemma TypedExample(items: seq<Json>)
    ensures ClaimTypeFromVC(JObj([("type", JArr(items))])) == ScanTypes(items, 0)
  {
    ObjectLookup([("type", JArr(items))], 0);
  }

  /* ----- Drafts ----- */

  /** The user-editable fields of a claim, one shape per claim type. */
  datatype ClaimDraft =
    | BasicDraft(alias: string, description: string, logo: string, website: string)
    | TwitterDraft(handle: string, tweetUrl: string)

  /** The claim type a draft's shape belongs to. */
  function DraftType(d: ClaimDraft): ClaimType {
    match d
    case BasicDraft(_, _, _, _) => Basic
    case TwitterDraft(_, _) => Twitter
  }

  /** The draft as the plain JavaScript object `newDraft` and
      `contentToDraft` build, with its keys in declaration order. */
  function DraftJson(d: ClaimDraft): (r: Json) {
    match d
    case BasicDraft(alias, description, logo, website) =>
      JObj([("alias", JStr(alias)), ("description", JStr(description)),
            ("logo", JStr(logo)), ("website", JStr(website))])
    case TwitterDraft(handle, tweetUrl) =>
      JObj([("handle", JStr(handle)), ("tweetUrl", JStr(tweetUrl))])
  }

  predicate IsEmptyDraft(d: ClaimDraft) {
    match d
    case BasicDraft(alias, description, logo, website) =>
      alias == "" && description == "" && logo == "" && website == ""
    case TwitterDraft(handle, tweetUrl) => handle == "" && tweetUrl == ""
  }

  /** Reading each field of a draft object returns that field. */
  lemma DraftFields(d: ClaimDraft)
    ensures d.BasicDraft? ==>
      && Keys(DraftJson(d)) == ["alias", "description", "logo", "website"]
      && Get(DraftJson(d), "alias") == JStr(d.alias)
      && Get(DraftJson(d), "description") == JStr(d.description)
      && Get(DraftJson(d), "logo") == JStr(d.logo)
      && Get(DraftJson(d), "website") == JStr(d.website)
    ensures d.TwitterDraft? ==>
      && Keys(DraftJson(d)) == ["handle", "tweetUrl"]
      && Get(DraftJson(d), "handle") == JStr(d.handle)
      && Get(DraftJson(d), "tweetUrl") == JStr(d.tweetUrl)
  {
    var o := DraftJson(d);
    if d.BasicDraft? {
      assert Keys(o) == ["alias", "description", "logo", "website"];
      assert Get(o, "alias") == JStr(d.alias) by { ObjectLookup(o.fields, 0); }
      assert Get(o, "description") == JStr(d.description) by { ObjectLookup(o.fields, 1); }
      assert Get(o, "logo") == JStr(d.logo) by { ObjectLookup(o.fields, 2); }
      assert Get(o, "website") == JStr(d.website) by { ObjectLookup(o.fields, 3); }
    } else {
      assert Keys(o) == ["handle", "tweetUrl"];
      assert Get(o, "handle") == JStr(d.handle) by { ObjectLookup(o.fields, 0); }
      assert Get(o, "tweetUrl") == JStr(d.tweetUrl) by { ObjectLookup(o.fields, 1); }
    }
  }

  /** `deepEqual` on two drafts is plain equality of the drafts: the key
      counts tell the shapes apart and every field is a string. */
  lemma DraftDeepEqualIff(d1: ClaimDraft, d2: ClaimDraft)
    ensures DeepEqual(DraftJson(d1), DraftJson(d2)) <==> d1 == d2
  {
    var a, b := DraftJson(d1), DraftJson(d2);
    DraftFields(d1);
    DraftFields(d2);
    if d1 == d2 {
      DeepEqualReflexive(a);
    } else if DraftType(d1) == DraftType(d2) {
      // some field differs, and its key disagrees
      DeepEqualMeaning(a, b);
      var k :=
        if d1.BasicDraft? then
          if d1.alias != d2.alias then "alias"
          else if d1.description != d2.description then "description"
          else if d1.logo != d2.logo then "logo"
          else "website"
        else if d1.handle != d2.handle then "handle"
        else "tweetUrl";
      assert k in Keys(a) && !Agree(a, b, k);
    }
  }

  /* ----- Display assets ----- */

  /** The icon component shown for a claim. */
  datatype Icon = PersonOutlined | TwitterIcon

  /** The long description of the claim creation process, by its subject:
      filling in profile information, or tweeting a signed message. */
  datatype Blurb = ProfileInformationBlurb | TweetSignedMessageBlurb

  datatype ClaimUIAssets = ClaimUIAssets(
    description: Blurb,
    display: string,
    icon: Icon,
    route: string,
    routeDescription: string,
    proof: string,
    title: string,
    typeLabel: string)

  /** `newDisplay(ct)`: the one fixed set of display assets of each type; the
      route of the create UI identifies the type. */
  function NewDisplay(ct: ClaimType): (r: ClaimUIAssets)
    ensures r.route == "/basic-profile" <==> ct == Basic
    ensures r.route == "/twitter" <==> ct == Twitter
    ensures r.icon == PersonOutlined <==> ct == Basic
  {
    match ct
    case Basic =>
      ClaimUIAssets(
        ProfileInformationBlurb,
        "Basic Profile Information",
        PersonOutlined,
        "/basic-profile",
        "Basic Profile Information",
        "Self-Attestation",
        "Basic Profile",
        "Basic Profile")
    case Twitter =>
      ClaimUIAssets(
        TweetSignedMessageBlurb,
        "Twitter Account Verification",
        TwitterIcon,
        "/twitter",
        "Twitter Account Information",
        "Tweet",
        "Twitter Verification",
        "Social Media")
  }

  lemma NewDisplayInjective(a: ClaimType, b: ClaimType)
    ensures NewDisplay(a) == NewDisplay(b) <==> a == b
  {
  }

  /** `newDraft(ct)`: an all-empty draft of the type's own shape, with four
      keys for a basic profile and two for a Twitter verification. */
  function NewDraft(ct: ClaimType): (r: ClaimDraft)
    ensures DraftType(r) == ct
    ensures IsEmptyDraft(r)
    ensures |Keys(DraftJson(r))| == (if ct == Basic then 4 else 2)
  {
    match ct
    case Basic => BasicDraft("", "", "", "")
    case Twitter => TwitterDraft("", "")
  }

  /* ----- Claims ----- */

  /** The `contractType` every new claim gets. */
  const VerifiableCredential := "VerifiableCredential"

  /** A claim. `None` stands for the TypeScript `false` in `content`, `irl` and
      `preparedContent`. */
  datatype Claim = Claim(
    content: Option<Json>,
    contractType: string,
    display: ClaimUIAssets,
    draft: ClaimDraft,
    irl: Option<string>,
    preparedContent: Option<Json>,
    onChain: bool,
    claimType: ClaimType)

  /** The record invariants of a claim: display assets and draft shape follow
      the type, and a claim on chain has content and a locator. */
  predicate Consistent(c: Claim) {
    && c.display == NewDisplay(c.claimType)
    && DraftType(c.draft) == c.claimType
    && (c.onChain ==> c.content.Some? && c.irl.Some?)
  }

  /** `newClaim(ct)`: a consistent claim of type `ct` with nothing saved, an
      empty draft and the verifiable-credential contract type. */
  function NewClaim(ct: ClaimType): (c: Claim)
    ensures Consistent(c)
    ensures c.claimType == ct
    ensures c.content.None? && c.preparedContent.None? && c.irl.None? && !c.onChain
    ensures c.contractType == VerifiableCredential
    ensures IsEmptyDraft(c.draft)
  {
    Claim(None, VerifiableCredential, NewDisplay(ct), NewDraft(ct), None, None, false, ct)
  }

  /* ----- Claim maps ----- */

  type ClaimMap = map<string, Claim>

  /** The loop of `addDefaults` over `types`: each type whose name is not yet
      a key gets the entry `create` makes for it. */
  function InsertMissing<V>(m: map<string, V>, types: seq<ClaimType>, create: ClaimType -> V)
    : (r: map<string, V>)
    ensures forall k :: k in m ==> k in r && r[k] == m[k]
    decreases |types|
  {
    if types == [] then m
    else
      var name := TypeName(types[0]);
      var next := if name in m then m else m[name := create(types[0])];
      InsertMissing(next, types[1..], create)
  }

  /** The loop adds exactly the names of the visited types, leaves existing
      entries alone, and gives each missing type a created entry. */
  lemma {:induction false} InsertMissingEffect<V>(m: map<string, V>, types: seq<ClaimType>,
                                               create: ClaimType -> V)
    ensures InsertMissing(m, types, create).Keys == m.Keys + set t | t in types :: TypeName(t)
    ensures forall k :: k in m ==> InsertMissing(m, types, create)[k] == m[k]
    ensures forall t :: t in types && TypeName(t) !in m ==>
      InsertMissing(m, types, create)[TypeName(t)] == create(t)
    decreases |types|
  {
    if types != [] {
      var name := TypeName(types[0]);
      var next := if name in m then m else m[name := create(types[0])];
      InsertMissingEffect(next, types[1..], create);
      assert (set t | t in types :: TypeName(t))
          == {name} + set t | t in types[1..] :: TypeName(t);
      forall t | t in types && TypeName(t) !in m
        ensures InsertMissing(m, types, create)[TypeName(t)] == create(t)
      {
        if t != types[0] {
          assert t in types[1..];
        }
      }
    }
  }

  /** `addDefaults(cm)`: afterwards every claim type has an entry; entries
      already there are unchanged, missing ones are new claims, and no other
      key is added or removed. */
  function AddDefaults(cm: ClaimMap): (r: ClaimMap)
    ensures r.Keys == cm.Keys + {"basic", "twitter"}
    ensures forall k :: k in cm ==> r[k] == cm[k]
    ensures "basic" !in cm ==> r["basic"] == NewClaim(Basic)
    ensures "twitter" !in cm ==> r["twitter"] == NewClaim(Twitter)
  {
    ClaimTypeNames();
    InsertMissingEffect(cm, ClaimTypes, NewClaim);
    InsertMissing(cm, ClaimTypes, NewClaim)
  }

  /** Filling in defaults twice is the same as once. */
  lemma AddDefaultsIdempotent(cm: ClaimMap)
    ensures AddDefaults(AddDefaults(cm)) == AddDefaults(cm)
  {
  }

  /** Every claim of the map keeps its record invariants. */
  lemma AddDefaultsConsistent(cm: ClaimMap)
    requires forall k :: k in cm ==> Consistent(cm[k])
    ensures forall k :: k in AddDefaults(cm) ==> Consistent(AddDefaults(cm)[k])
  {
  }

  /* ----- Drafts from stored content ----- */

  const TwitterPrefix := "https://twitter.com/"

  /** `content.credentialSubject` holds the four basic-profile strings. */
  predicate BasicContent(c: Json) {
    && HasObject(c, "credentialSubject")
    && var subject := Get(c, "credentialSubject");
    && HasString(subject, "alias")
    && HasString(subject, "description")
    && HasString(subject, "logo")
    && HasString(subject, "website")
  }

  /** `content.credentialSubject.sameAs` and `content.evidence.tweetId` are
      strings. */
  predicate TwitterContent(c: Json) {
    && HasObject(c, "credentialSubject")
    && HasString(Get(c, "credentialSubject"), "sameAs")
    && HasObject(c, "evidence")
    && HasString(Get(c, "evidence"), "tweetId")
  }

  /** The fields `contentToDraft` reads exist for this claim type. */
  predicate ContentFits(ct: ClaimType, c: Json) {
    match ct
    case Basic => BasicContent(c)
    case Twitter => TwitterContent(c)
  }

  function Subject(c: Json): Json
    requires HasObject(c, "credentialSubject")
  {
    Get(c, "credentialSubject")
  }

  /** The tweet URL `contentToDraft` builds from a handle and a tweet id. */
  function TweetUrl(handle: string, tweetId: string): string {
    TwitterPrefix + handle + "/status/" + tweetId
  }

  /** `contentToDraft(ct, content)`. A basic draft copies the four subject
      strings; a Twitter handle is `sameAs` with the first occurrence of the
      Twitter URL prefix removed, and the tweet URL is rebuilt from it. */
  function ContentToDraft(ct: ClaimType, c: Json): (r: ClaimDraft)
    requires ContentFits(ct, c)
    ensures DraftType(r) == ct
    ensures r.BasicDraft? ==>
      && r.alias == StringAt(Subject(c), "alias")
      && r.description == StringAt(Subject(c), "description")
      && r.logo == StringAt(Subject(c), "logo")
      && r.website == StringAt(Subject(c), "website")
    ensures r.TwitterDraft? ==>
      && r.handle == ReplaceFirst(StringAt(Subject(c), "sameAs"), TwitterPrefix, "")
      && r.tweetUrl == TweetUrl(r.handle, StringAt(Get(c, "evidence"), "tweetId"))
  {
    match ct
    case Basic =>
      var subject := Subject(c);
      BasicDraft(StringAt(subject, "alias"), StringAt(subject, "description"),
                 StringAt(subject, "logo"), StringAt(subject, "website"))
    case Twitter =>
      var sameAs := StringAt(Subject(c), "sameAs");
      var tweetId := StringAt(Get(c, "evidence"), "tweetId");
      var handle := ReplaceFirst(sameAs, TwitterPrefix, "");
      TwitterDraft(handle, TweetUrl(handle, tweetId))
  }

  /** A credential whose subject is the draft's own object. */
  function BasicCredential(d: ClaimDraft): Json
    requires d.BasicDraft?
  {
    JObj([("credentialSubject", DraftJson(d))])
  }

  /** A Twitter credential for `handle` with the given tweet id. */
  function TwitterCredential(handle: string, tweetId: string): Json {
    JObj([("credentialSubject", JObj([("sameAs", JStr(TwitterPrefix + handle))])),
          ("evidence", JObj([("tweetId", JStr(tweetId))]))])
  }

  /** Storing a basic draft and reading it back gives the draft. */
  lemma BasicRoundTrip(d: ClaimDraft)
    requires d.BasicDraft?
    ensures ContentFits(Basic, BasicCredential(d))
    ensures ContentToDraft(Basic, BasicCredential(d)) == d
  {
    ObjectLookup(BasicCredential(d).fields, 0);
    DraftFields(d);
  }

  /** The handle comes back from its profile URL, and the tweet URL is the
      canonical one for that handle and tweet. */
  lemma TwitterRoundTrip(handle: string, tweetId: string)
    ensures ContentFits(Twitter, TwitterCredential(handle, tweetId))
    ensures ContentToDraft(Twitter, TwitterCredential(handle, tweetId))
         == TwitterDraft(handle, TweetUrl(handle, tweetId))
  {
    var c := TwitterCredential(handle, tweetId);
    var subject := JObj([("sameAs", JStr(TwitterPrefix + handle))]);
    var evidence := JObj([("tweetId", JStr(tweetId))]);
    assert "credentialSubject" in Keys(c) && Get(c, "credentialSubject") == subject by {
      ObjectLookup(c.fields, 0);
    }
    assert "evidence" in Keys(c) && Get(c, "evidence") == evidence by {
      ObjectLookup(c.fields, 1);
    }
    assert HasString(subject, "sameAs") && StringAt(subject, "sameAs") == TwitterPrefix + handle by {
      ObjectLookup(subject.fields, 0);
    }
    assert HasString(evidence, "tweetId") && StringAt(evidence, "tweetId") == tweetId by {
      ObjectLookup(evidence.fields, 0);
    }
    assert ReplaceFirst(TwitterPrefix + handle, TwitterPrefix, "") == handle by {
      ReplaceLeading(TwitterPrefix, handle, "");
    }
  }

  /* ----- Loading a saved claim ----- */

  /** `claimFromTriple(ct, [irl, raw, contractType])`, with `raw` already
      parsed: a consistent claim on chain, holding the content and the
      locator, whose draft is the one the content yields. */
  function ClaimFromTriple(ct: ClaimType, triple: (string, Json, string)): (c: Claim)
    requires ContentFits(ct, triple.1)
    ensures Consistent(c)
    ensures c.claimType == ct && c.onChain
    ensures c.irl == Some(triple.0) && c.content == Some(triple.1)
    ensures c.contractType == triple.2 && c.preparedContent.None?
    ensures c.draft == ContentToDraft(ct, triple.1)
  {
    var content := triple.1;
    Claim(Some(content), triple.2, NewDisplay(ct), ContentToDraft(ct, content),
          Some(triple.0), None, true, ct)
  }

  /* ----- Unsaved drafts ----- */

  /** What `isUnsavedDraft` needs to read the stored draft. */
  predicate Readable(c: Claim) {
    c.content.Some? && c.preparedContent.None? ==> ContentFits(c.claimType, c.content.value)
  }

  /** `isUnsavedDraft(c)` as written: true without content or with prepared
      content, and otherwise the raw `deepEqual` of the draft and the draft
      the content yields, which is true exactly when they are the SAME. */
  function IsUnsavedDraft(c: Claim): (r: bool)
    requires Readable(c)
    ensures c.content.None? || c.preparedContent.Some? ==> r
    ensures c.content.Some? && c.preparedContent.None? ==>
      (r <==> c.draft == ContentToDraft(c.claimType, c.content.value))
  {
    if c.content.None? || c.preparedContent.Some? then true
    else
      var stored := ContentToDraft(c.claimType, c.content.value);
      DraftDeepEqualIff(c.draft, stored);
      DeepEqual(DraftJson(c.draft), DraftJson(stored))
  }

  /** The test the field comment on `draft` describes: unsaved when there is
      no content, when content is being prepared, or when the draft differs
      from the draft the content yields. */
  function HasUnsavedChanges(c: Claim): (r: bool)
    requires Readable(c)
    ensures r <==>
      || c.content.None?
      || c.preparedContent.Some?
      || c.draft != ContentToDraft(c.claimType, c.content.value)
  {
    if c.content.None? || c.preparedContent.Some? then true
    else
      var stored := ContentToDraft(c.claimType, c.content.value);
      DraftDeepEqualIff(c.draft, stored);
      !DeepEqual(DraftJson(c.draft), DraftJson(stored))
  }

  /** A new claim has nothing saved, so both readings call it unsaved. */
  lemma NewClaimUnsaved(ct: ClaimType)
    ensures IsUnsavedDraft(NewClaim(ct))
    ensures HasUnsavedChanges(NewClaim(ct))
  {
  }

  /** A claim just loaded from storage has no edits, yet `isUnsavedDraft`
      reports it unsaved; the corrected test reports it saved. */
  lemma LoadedClaimMisreported(ct: ClaimType, triple: (string, Json, string))
    requires ContentFits(ct, triple.1)
    ensures IsUnsavedDraft(ClaimFromTriple(ct, triple))
    ensures !HasUnsavedChanges(ClaimFromTriple(ct, triple))
  {
  }

  /** Editing the draft of a loaded claim makes `isUnsavedDraft` report it
      saved; the corrected test reports it unsaved. */
  lemma EditedClaimMisreported(ct: ClaimType, triple: (string, Json, string), edit: ClaimDraft)
    requires ContentFits(ct, triple.1)
    requires edit != ContentToDraft(ct, triple.1)
    ensures !IsUnsavedDraft(ClaimFromTriple(ct, triple).(draft := edit))
    ensures HasUnsavedChanges(ClaimFromTriple(ct, triple).(draft := edit))
  {
  }
}
