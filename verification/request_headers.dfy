/** The header part of the per-request hook: the configured custom headers are
    set one after the other, then, under Basic authentication with a user name,
    an `Authorization` header carrying the credentials of section 2 of RFC 7617
    overrides whatever `Authorization` value the custom headers left. */
module RequestHeaders {
  import opened Wrappers
  import opened Seqs
  import opened Encodings

  // ---------------------------------------------------------------------------
  // Header maps

  /** ASCII lower case of one character. */
  function LowerChar(c: char): char {
    if 'A' <= c <= 'Z' then (c as int + 32) as char else c
  }

  /** Header names compare case-insensitively; a map is keyed by the folded name. */
  function Fold(name: string): (r: string)
    ensures |r| == |name|
    ensures forall i :: 0 <= i < |name| ==> r[i] == LowerChar(name[i])
    ensures forall i :: 0 <= i < |r| ==> !('A' <= r[i] <= 'Z')
  {
    seq(|name|, i requires 0 <= i < |name| => LowerChar(name[i]))
  }

  /** Folding a folded name changes nothing, so folded keys look themselves up. */
  lemma FoldIdempotent(name: string)
    ensures Fold(Fold(name)) == Fold(name)
  {
  }

  /** Names that differ only in the case of their letters are the same header. */
  lemma FoldIgnoresCase(a: string, b: string)
    requires |a| == |b|
    requires forall i :: 0 <= i < |a| ==> LowerChar(a[i]) == LowerChar(b[i])
    ensures Fold(a) == Fold(b)
  {
  }

  type Headers = map<string, string>

  /** The message's headers as a case-insensitive collection: every key is a
      folded name, so one header has one entry whatever spelling set it. */
  predicate FoldedKeys(h: Headers) {
    forall k :: k in h ==> Fold(k) == k
  }

  /** Value of the header `name`, if the message carries one. */
  function Lookup(h: Headers, name: string): Option<string> {
    if Fold(name) in h then Some(h[Fold(name)]) else None
  }

  /** Every entry of a folded map is found under its own key. */
  lemma FoldedLookup(h: Headers, k: string)
    requires FoldedKeys(h) && k in h
    ensures Lookup(h, k) == Some(h[k])
  {
  }

  /** Looking a header up ignores the case of the name's letters. */
  lemma LookupIgnoresCase(h: Headers, a: string, b: string)
    requires |a| == |b|
    requires forall i :: 0 <= i < |a| ==> LowerChar(a[i]) == LowerChar(b[i])
    ensures Lookup(h, a) == Lookup(h, b)
  {
    FoldIgnoresCase(a, b);
  }

  /** `RequestMessage.SetHeader`: the header gets the value, replacing any
      previous value under any spelling of its name. */
  function SetHeader(h: Headers, name: string, value: string): (r: Headers)
    ensures Lookup(r, name) == Some(value)
    ensures forall other :: Fold(other) != Fold(name) ==> Lookup(r, other) == Lookup(h, other)
    ensures r.Keys == h.Keys + {Fold(name)}
    ensures FoldedKeys(h) ==> FoldedKeys(r)
  {
    FoldIdempotent(name);
    h[Fold(name) := value]
  }

  /** `a` when it holds a value, `b` otherwise. */
  function Or(a: Option<string>, b: Option<string>): Option<string> {
    if a.Some? then a else b
  }

  // ---------------------------------------------------------------------------
  // Custom headers

  /** The folded names of the custom headers. */
  function CustomNames(custom: seq<(string, string)>): set<string> {
    set i | 0 <= i < |custom| :: Fold(custom[i].0)
  }

  /** Splitting off the first custom header splits off its folded name. */
  lemma CustomNamesCons(custom: seq<(string, string)>)
    requires |custom| > 0
    ensures CustomNames(custom) == {Fold(custom[0].0)} + CustomNames(custom[1..])
  {
  }

  /** The `foreach` over the custom headers: each one set in turn, in order. */
  function ApplyCustomHeaders(h: Headers, custom: seq<(string, string)>): (r: Headers)
    requires FoldedKeys(h)
    ensures FoldedKeys(r)
    ensures r.Keys == h.Keys + CustomNames(custom)
    decreases |custom|
  {
    if |custom| == 0 then h
    else
      CustomNamesCons(custom);
      ApplyCustomHeaders(SetHeader(h, custom[0].0, custom[0].1), custom[1..])
  }

  /** Reference reading of the custom headers, scanning from the end: the value
      of the last entry whose name folds to `key`, if any. */
  function LastSetting(custom: seq<(string, string)>, key: string): (r: Option<string>)
    ensures r.None? <==> forall i :: 0 <= i < |custom| ==> Fold(custom[i].0) != key
    ensures r.Some? ==> exists i :: 0 <= i < |custom| && Fold(custom[i].0) == key && custom[i].1 == r.value &&
                                    forall j :: i < j < |custom| ==> Fold(custom[j].0) != key
    decreases |custom|
  {
    if |custom| == 0 then None
    else
      var init := custom[..|custom| - 1];
      var last := custom[|custom| - 1];
      if Fold(last.0) == key then Some(last.1)
      else
        var r := LastSetting(init, key);
        assert forall i :: 0 <= i < |init| ==> init[i] == custom[i];
        r
  }

  /** `LastSetting` of a list with one more entry in front. */
  lemma {:induction false} LastSettingCons(c: (string, string), rest: seq<(string, string)>, key: string)
    ensures LastSetting([c] + rest, key)
         == Or(LastSetting(rest, key), if Fold(c.0) == key then Some(c.1) else None)
    decreases |rest|
  {
    if |rest| == 0 {
      assert ([c] + rest)[..0] == [];
    } else {
      var init := rest[..|rest| - 1];
      assert ([c] + rest)[..|rest|] == [c] + init;
      LastSettingCons(c, init, key);
    }
  }

  /** After the custom headers are set, each header has the value of the last
      custom entry with its name, or the value it had before when there is none. */
  lemma {:induction false} CustomHeadersLastWins(h: Headers, custom: seq<(string, string)>, name: string)
    requires FoldedKeys(h)
    ensures Lookup(ApplyCustomHeaders(h, custom), name) == Or(LastSetting(custom, Fold(name)), Lookup(h, name))
    decreases |custom|
  {
    if |custom| > 0 {
      var c, rest := custom[0], custom[1..];
      CustomHeadersLastWins(SetHeader(h, c.0, c.1), rest, name);
      assert custom == [c] + rest;
      LastSettingCons(c, rest, Fold(name));
    }
  }

  // ---------------------------------------------------------------------------
  // Basic authentication

  /** The connection's authentication choice; only `Basic` matters to the header. */
  datatype AuthenticationType = Basic | OtherAuthentication

  /** The connection settings the hook reads. A missing user name or password
      is the empty string. */
  datatype ConnectionSettings = ConnectionSettings(
    customHeaders: seq<(string, string)>,
    authenticationType: AuthenticationType,
    userName: string,
    password: string)

  const AuthorizationHeader := "Authorization"

  const BasicScheme := "Basic "

  /** `"Basic " + base64(ASCII(user ":" password))`. */
  function BasicCredentials(user: string, password: string): (r: string)
    ensures |r| > |BasicScheme| && r[..|BasicScheme|] == BasicScheme
    ensures forall i :: |BasicScheme| <= i < |r| ==> IsBase64Char(r[i])
  {
    BasicScheme + Base64Encode(AsciiBytes(user + ":" + password))
  }

  /** The Basic header is written exactly when Basic authentication is selected
      and the user name is not empty. */
  predicate UsesBasicHeader(settings: ConnectionSettings) {
    settings.authenticationType == Basic && |settings.userName| > 0
  }

  /** The header part of the `SendingRequest2` handler, applied to the headers
      `h` the request message already carries. */
  function SendingRequestHeaders(h: Headers, settings: ConnectionSettings): (r: Headers)
    requires FoldedKeys(h)
    ensures FoldedKeys(r)
    ensures UsesBasicHeader(settings) ==>
      Lookup(r, AuthorizationHeader) == Some(BasicCredentials(settings.userName, settings.password))
    ensures !UsesBasicHeader(settings) ==> r == ApplyCustomHeaders(h, settings.customHeaders)
    ensures r.Keys >= h.Keys
  {
    var custom := ApplyCustomHeaders(h, settings.customHeaders);
    if UsesBasicHeader(settings) then
      SetHeader(custom, AuthorizationHeader, BasicCredentials(settings.userName, settings.password))
    else custom
  }

  /** Every header of the outgoing request: `Authorization` is the Basic value
      whenever that applies, overriding custom headers; every other header is
      its last custom setting, or what the message carried before. */
  lemma EffectiveHeaders(h: Headers, settings: ConnectionSettings, name: string)
    requires FoldedKeys(h)
    ensures Lookup(SendingRequestHeaders(h, settings), name)
         == if UsesBasicHeader(settings) && Fold(name) == Fold(AuthorizationHeader)
            then Some(BasicCredentials(settings.userName, settings.password))
            else Or(LastSetting(settings.customHeaders, Fold(name)), Lookup(h, name))
  {
    CustomHeadersLastWins(h, settings.customHeaders, name);
  }

  /** Reads back user and password from a Basic value: the text after the
      scheme is decoded and split at its FIRST colon. */
  function ParseBasicCredentials(value: string): (r: Option<(string, string)>)
    ensures r.Some? ==> ':' !in r.value.0
  {
    if |value| < |BasicScheme| || value[..|BasicScheme|] != BasicScheme then None
    else match Base64Decode(value[|BasicScheme|..])
      case None => None
      case Some(bytes) =>
        var text := AsciiString(bytes);
        match FirstIndex(text, c => c == ':')
        case None => None
        case Some(k) =>
          assert forall j :: 0 <= j < |text[..k]| ==> text[..k][j] == text[j];
          Some((text[..k], text[k + 1..]))
  }

  /** The first colon of `user ":" password` is the separator when the user
      name has none. */
  lemma SeparatorIsFirstColon(user: string, password: string)
    requires ':' !in user
    ensures FirstIndex(user + ":" + password, c => c == ':') == Some(|user|)
  {
    var t := user + ":" + password;
    var p := (c: char) => c == ':';
    assert p(t[|user|]);
    forall j | 0 <= j < |user| ensures !p(t[j]) {
      assert t[j] == user[j];
    }
  }

  /** Section 2 of RFC 7617: an ASCII user-id without a colon and an ASCII
      password come back unchanged from the header value. */
  lemma BasicCredentialsRoundTrip(user: string, password: string)
    requires ':' !in user
    requires IsAscii(user) && IsAscii(password)
    ensures ParseBasicCredentials(BasicCredentials(user, password)) == Some((user, password))
  {
    var text := user + ":" + password;
    var value := BasicCredentials(user, password);
    assert IsAscii(text) by {
      forall i | 0 <= i < |text| ensures (text[i] as int) < 128 {
        if i < |user| {
          assert text[i] == user[i];
        } else if i > |user| {
          assert text[i] == password[i - |user| - 1];
        }
      }
    }
    assert value[|BasicScheme|..] == Base64Encode(AsciiBytes(text));
    Base64RoundTrip(AsciiBytes(text));
    AsciiRoundTrip(text);
    SeparatorIsFirstColon(user, password);
    assert text[..|user|] == user;
    assert text[|user| + 1..] == password;
  }

  /** A colon in the user name cannot be told apart from the separator: the
      value for user `a:b` and password `c` reads back as user `a`, password `b:c`. */
  lemma ColonInUserNameIsAmbiguous()
    ensures BasicCredentials("a:b", "c") == BasicCredentials("a", "b:c")
    ensures ParseBasicCredentials(BasicCredentials("a:b", "c")) == Some(("a", "b:c"))
  {
    assert "a:b" + ":" + "c" == "a" + ":" + "b:c";
    BasicCredentialsRoundTrip("a", "b:c");
  }

  /** Worked example: a custom `X-A` header and a custom `authorization` entry,
      with Basic authentication for user `bob`. */
  const BobSettings := ConnectionSettings([("X-A", "1"), ("authorization", "Bearer t")], Basic, "bob", "pwd")

  /** In the example the custom header is kept, the Basic value overrides the
      custom `authorization` entry, and nothing else is added. */
  lemma BobExample()
    ensures Lookup(SendingRequestHeaders(map[], BobSettings), "x-a") == Some("1")
    ensures Lookup(SendingRequestHeaders(map[], BobSettings), "Authorization") == Some(BasicCredentials("bob", "pwd"))
    ensures Lookup(SendingRequestHeaders(map[], BobSettings), "Accept") == None
  {
    var custom := BobSettings.customHeaders;
    assert Fold("X-A") == "x-a" && Fold("x-a") == "x-a";
    assert Fold("authorization") == "authorization";
    assert Fold("Authorization") == "authorization";
    assert Fold("Accept") == "accept";
    assert LastSetting(custom, "x-a") == Some("1") by {
      assert custom[..1] == [("X-A", "1")];
    }
    assert LastSetting(custom, "accept") == None;
    EffectiveHeaders(map[], BobSettings, "x-a");
    EffectiveHeaders(map[], BobSettings, "Authorization");
    EffectiveHeaders(map[], BobSettings, "Accept");
  }
}
