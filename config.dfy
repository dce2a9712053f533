/** The plugin's connection settings: the three WordPress options holding the
    remote shop's address and REST credentials, the form handler that
    validates and stores them, and the connection test run before any sync. */
module Config {
  import opened PhpValues

  const WebsiteUrlOption: string := "wootowoo_website_url"
  const ConsumerKeyOption: string := "wootowoo_consumer_key"
  const ConsumerSecretOption: string := "wootowoo_consumer_secret"

  const UrlRequired: string := "Website address is required."
  const UrlInvalid: string := "Please enter a valid website address."
  const KeyRequired: string := "Consumer key is required."
  const SecretRequired: string := "Consumer secret is required."

  /** `get_option($name, '')`. */
  function OptionOr(options: map<string, string>, name: string): string {
    if name in options then options[name] else ""
  }

  /** `has_config` over a state of the options table. */
  predicate Configured(options: map<string, string>) {
    && !EmptyString(OptionOr(options, WebsiteUrlOption))
    && !EmptyString(OptionOr(options, ConsumerKeyOption))
    && !EmptyString(OptionOr(options, ConsumerSecretOption))
  }

  // ------------------------------------------------------ form validation

  /** The error list `handle_config_save` builds for the sanitised form values. */
  function ConfigErrors(url: string, key: string, secret: string, isValidUrl: string -> bool): (e: seq<string>)
    ensures |e| <= 3
    ensures forall i :: 0 <= i < |e| ==> e[i] in {UrlRequired, UrlInvalid, KeyRequired, SecretRequired}
  {
    (if EmptyString(url) then [UrlRequired] else if !isValidUrl(url) then [UrlInvalid] else [])
    + (if EmptyString(key) then [KeyRequired] else [])
    + (if EmptyString(secret) then [SecretRequired] else [])
  }

  /** The position of an error in the order the form is checked: address,
      key, secret. */
  function ErrorRank(e: string): int {
    if e == UrlRequired || e == UrlInvalid then 0
    else if e == KeyRequired then 1
    else if e == SecretRequired then 2
    else 3
  }

  /** At most one error per field, in form order; the address draws "required"
      when empty and otherwise "invalid" when it fails the URL filter, never
      both; each credential draws "required" exactly when empty. */
  lemma ConfigErrorsSpec(url: string, key: string, secret: string, isValidUrl: string -> bool)
    ensures var e := ConfigErrors(url, key, secret, isValidUrl);
            && |e| <= 3
            && (UrlRequired in e <==> EmptyString(url))
            && (UrlInvalid in e <==> !EmptyString(url) && !isValidUrl(url))
            && !(UrlRequired in e && UrlInvalid in e)
            && (KeyRequired in e <==> EmptyString(key))
            && (SecretRequired in e <==> EmptyString(secret))
            && (forall i, j :: 0 <= i < j < |e| ==> ErrorRank(e[i]) < ErrorRank(e[j]))
  {
    assert UrlRequired != UrlInvalid && UrlRequired != KeyRequired && UrlRequired != SecretRequired;
    assert UrlInvalid != KeyRequired && UrlInvalid != SecretRequired && KeyRequired != SecretRequired;
  }

  /** The form is accepted exactly when every value is non-empty and the
      address passes the URL filter. */
  lemma NoErrorsIff(url: string, key: string, secret: string, isValidUrl: string -> bool)
    ensures ConfigErrors(url, key, secret, isValidUrl) == []
            <==> !EmptyString(url) && isValidUrl(url) && !EmptyString(key) && !EmptyString(secret)
  {
  }

  /** The options table after an accepted form. */
  function Stored(options: map<string, string>, url: string, key: string, secret: string): map<string, string> {
    options[WebsiteUrlOption := url][ConsumerKeyOption := key][ConsumerSecretOption := secret]
  }

  /** Storing accepted values establishes `has_config`, and the getters read
      the stored values back. */
  lemma AcceptedValuesConfigure(options: map<string, string>, url: string, key: string, secret: string, isValidUrl: string -> bool)
    requires ConfigErrors(url, key, secret, isValidUrl) == []
    ensures var stored := Stored(options, url, key, secret);
            && Configured(stored)
            && OptionOr(stored, WebsiteUrlOption) == url
            && OptionOr(stored, ConsumerKeyOption) == key
            && OptionOr(stored, ConsumerSecretOption) == secret
  {
    NoErrorsIff(url, key, secret, isValidUrl);
    assert WebsiteUrlOption != ConsumerKeyOption && WebsiteUrlOption != ConsumerSecretOption;
    assert ConsumerKeyOption != ConsumerSecretOption;
  }

  /** What the admin sees after `handle_config_save`. */
  datatype SaveOutcome =
    | NotSubmitted
    | Saved
    | Rejected(errors: seq<string>)

  /** The message of the success notice. */
  const SavedNotice: string := "Configuration saved successfully!"

  /** The notices shown for an outcome, one per error. */
  function Notices(outcome: SaveOutcome): (notices: seq<string>)
    ensures outcome.Saved? ==> notices == [SavedNotice]
    ensures outcome.Rejected? ==> notices == outcome.errors
    ensures outcome.NotSubmitted? ==> notices == []
  {
    match outcome
    case NotSubmitted => []
    case Saved => [SavedNotice]
    case Rejected(errors) => errors
  }

  /** A submitted form shows one to three notices: the success notice
      exactly when it was accepted, otherwise one notice per error in form
      order. */
  lemma SaveNotices(url: string, key: string, secret: string, isValidUrl: string -> bool)
    ensures var errors := ConfigErrors(url, key, secret, isValidUrl);
            var notices := Notices(if errors == [] then Saved else Rejected(errors));
            && 1 <= |notices| <= 3
            && (SavedNotice in notices <==> errors == [])
            && (errors != [] ==> notices == errors)
  {
    assert SavedNotice !in {UrlRequired, UrlInvalid, KeyRequired, SecretRequired} by {
      assert SavedNotice[0] == 'C';
      assert UrlRequired[0] == 'W' && UrlInvalid[0] == 'P' && KeyRequired[0] == 'C' && SecretRequired[0] == 'C';
      assert SavedNotice[3] == 'f' && KeyRequired[3] == 's' && SecretRequired[3] == 's';
    }
  }

  // ---------------------------------------------------- connection test

  /** The request `test_connection` sends. */
  datatype Request = Request(url: string, authorization: string, timeout: int)

  /** `wp_remote_get`'s outcome: a transport error, or a response code. */
  datatype HttpResponse = WpError(message: string) | Response(code: int)

  datatype ConnectionResult = ConnectionResult(success: bool, message: string)

  const EmptyValuesMessage: string := "Please enter all configuration values"
  const ConnectedMessage: string := "Success - connection valid"
  const InvalidUrlMessage: string := "Please enter a valid website address"
  const StatusPath: string := "/wp-json/wc/v3/system_status"

  /** The status endpoint of the remote shop. */
  function StatusUrl(url: string): (r: string)
    ensures |r| >= |StatusPath| && r[|r| - |StatusPath|..] == StatusPath
    ensures r[..|r| - |StatusPath|] == TrimTrailingSlashes(url)
  {
    var base := TrimTrailingSlashes(url);
    assert (base + StatusPath)[..|base|] == base;
    base + StatusPath
  }

  /** The `/`s `rtrim` removes are what keeps the endpoint well formed: an
      address with or without trailing slashes gives the same URL, and no
      slash directly precedes the endpoint path unless the address is only
      slashes. */
  lemma StatusUrlSpec(url: string)
    ensures StatusUrl(url + "/") == StatusUrl(url)
    ensures StatusUrl(TrimTrailingSlashes(url)) == StatusUrl(url)
    ensures (url == [] || url[|url| - 1] != '/') ==> StatusUrl(url) == url + StatusPath
    ensures var r := StatusUrl(url);
            |TrimTrailingSlashes(url)| > 0 ==> r[|r| - |StatusPath| - 1] != '/'
  {
    TrimAppendSlash(url);
    var base := TrimTrailingSlashes(url);
    assert TrimTrailingSlashes(base) == base;
  }

  /** `test_connection`: the guard checks, then one request through `send`.
      It reports success only past both guards, and the success message
      exactly when it succeeds. */
  function TestConnection(url: string, key: string, secret: string, wp: WordPress,
                          send: Request -> HttpResponse): (r: ConnectionResult)
    ensures r.success ==> !EmptyString(url) && !EmptyString(key) && !EmptyString(secret) && wp.isValidUrl(url)
    ensures r.success <==> r.message == ConnectedMessage
  {
    if EmptyString(url) || EmptyString(key) || EmptyString(secret) then
      assert EmptyValuesMessage[0] != ConnectedMessage[0];
      ConnectionResult(false, EmptyValuesMessage)
    else if !wp.isValidUrl(url) then
      assert InvalidUrlMessage[0] != ConnectedMessage[0];
      ConnectionResult(false, InvalidUrlMessage)
    else
      var request := Request(StatusUrl(url), "Basic " + wp.base64Encode(key + ":" + secret), 15);
      match send(request)
      case WpError(message) =>
        var m := "Connection failed: " + message;
        assert m[0] != ConnectedMessage[0];
        ConnectionResult(false, m)
      case Response(code) =>
        if code == 200 then ConnectionResult(true, ConnectedMessage)
        else
          var m := "Connection invalid (HTTP " + IntToString(code) + ")";
          assert m[0] != ConnectedMessage[0];
          ConnectionResult(false, m)
  }

  /** The two guards fail before any request: the result does not depend on
      the network, and says which guard failed. */
  lemma GuardsPrecedeRequest(url: string, key: string, secret: string, wp: WordPress,
                             send1: Request -> HttpResponse, send2: Request -> HttpResponse)
    requires EmptyString(url) || EmptyString(key) || EmptyString(secret) || !wp.isValidUrl(url)
    ensures TestConnection(url, key, secret, wp, send1) == TestConnection(url, key, secret, wp, send2)
    ensures !TestConnection(url, key, secret, wp, send1).success
    ensures TestConnection(url, key, secret, wp, send1).message
            == if EmptyString(url) || EmptyString(key) || EmptyString(secret) then EmptyValuesMessage
               else InvalidUrlMessage
  {
  }

  /** Past the guards, the test succeeds exactly when the status endpoint of
      the trimmed address answers 200 to the basic-auth request. */
  lemma ConnectionSucceedsIff(url: string, key: string, secret: string, wp: WordPress,
                              send: Request -> HttpResponse)
    requires !EmptyString(url) && !EmptyString(key) && !EmptyString(secret) && wp.isValidUrl(url)
    ensures var request := Request(StatusUrl(url), "Basic " + wp.base64Encode(key + ":" + secret), 15);
            TestConnection(url, key, secret, wp, send).success <==> send(request) == Response(200)
  {
  }

  /** A response other than 200 is reported with its code, which `intval`
      reads back from the message. */
  lemma InvalidResponseNamesCode(url: string, key: string, secret: string, wp: WordPress,
                                 send: Request -> HttpResponse, code: int)
    requires !EmptyString(url) && !EmptyString(key) && !EmptyString(secret) && wp.isValidUrl(url)
    requires send(Request(StatusUrl(url), "Basic " + wp.base64Encode(key + ":" + secret), 15)) == Response(code)
    requires code != 200
    ensures var m := TestConnection(url, key, secret, wp, send).message;
            && |m| > 26 && m[..25] == "Connection invalid (HTTP " && m[|m| - 1] == ')'
            && StringToInt(m[25..|m| - 1]) == code
  {
    var digits := IntToString(code);
    var m := "Connection invalid (HTTP " + digits + ")";
    assert TestConnection(url, key, secret, wp, send).message == m;
    assert |digits| > 0;
    assert m[25..|m| - 1] == digits;
    assert m[..25] == "Connection invalid (HTTP ";
    IntToStringRoundTrip(code);
  }

  /** Values the form accepted always pass both guards of the connection test. */
  lemma AcceptedValuesPassGuards(url: string, key: string, secret: string, wp: WordPress)
    requires ConfigErrors(url, key, secret, wp.isValidUrl) == []
    ensures !EmptyString(url) && !EmptyString(key) && !EmptyString(secret) && wp.isValidUrl(url)
  {
    NoErrorsIff(url, key, secret, wp.isValidUrl);
  }

  /** The options table of WordPress, as far as the plugin uses it. */
  class Settings {
    var options: map<string, string>

    constructor(options: map<string, string>)
      ensures this.options == options
    {
      this.options := options;
    }

    /** `get_website_url`. */
    function WebsiteUrl(): string
      reads this
    {
      OptionOr(options, WebsiteUrlOption)
    }

    /** `get_consumer_key`. */
    function ConsumerKey(): string
      reads this
    {
      OptionOr(options, ConsumerKeyOption)
    }

    /** `get_consumer_secret`. */
    function ConsumerSecret(): string
      reads this
    {
      OptionOr(options, ConsumerSecretOption)
    }

    /** `has_config`: all three settings are non-empty under PHP `empty`. */
    function HasConfig(): (ok: bool)
      reads this
      ensures ok <==> !EmptyString(WebsiteUrl()) && !EmptyString(ConsumerKey()) && !EmptyString(ConsumerSecret())
    {
      Configured(options)
    }

    /** `handle_config_save` for one request: `$_POST` is `post` and the
        nonce check's verdict is `nonceValid`. The options are written only
        when the error list is empty. */
    method HandleConfigSave(post: Doc, nonceValid: bool, wp: WordPress) returns (outcome: SaveOutcome, notices: seq<string>)
      modifies this
      ensures notices == Notices(outcome)
      ensures !(IsSet(post, "wootowoo_save_config") && nonceValid) ==>
                outcome == NotSubmitted && options == old(options) && notices == []
      ensures IsSet(post, "wootowoo_save_config") && nonceValid ==>
                var url := wp.sanitizeUrl(Get(post, "website_url"));
                var key := wp.sanitizeTextField(Get(post, "consumer_key"));
                var secret := wp.sanitizeTextField(Get(post, "consumer_secret"));
                var errors := ConfigErrors(url, key, secret, wp.isValidUrl);
                && (errors == [] ==> outcome == Saved && options == Stored(old(options), url, key, secret))
                && (errors != [] ==> outcome == Rejected(errors) && options == old(options))
                && 1 <= |notices| <= 3
                && (SavedNotice in notices <==> errors == [])
                && (errors != [] ==> notices == errors)
      ensures outcome.Saved? ==> HasConfig()
    {
      outcome := NotSubmitted;
      if IsSet(post, "wootowoo_save_config") && nonceValid {
        var websiteUrl := wp.sanitizeUrl(Get(post, "website_url"));
        var consumerKey := wp.sanitizeTextField(Get(post, "consumer_key"));
        var consumerSecret := wp.sanitizeTextField(Get(post, "consumer_secret"));
        var errors: seq<string> := [];
        if EmptyString(websiteUrl) {
          errors := errors + [UrlRequired];
        } else if !wp.isValidUrl(websiteUrl) {
          errors := errors + [UrlInvalid];
        }
        if EmptyString(consumerKey) {
          errors := errors + [KeyRequired];
        }
        if EmptyString(consumerSecret) {
          errors := errors + [SecretRequired];
        }
        assert errors == ConfigErrors(websiteUrl, consumerKey, consumerSecret, wp.isValidUrl);
        if errors == [] {
          AcceptedValuesConfigure(options, websiteUrl, consumerKey, consumerSecret, wp.isValidUrl);
          options := options[WebsiteUrlOption := websiteUrl];
          options := options[ConsumerKeyOption := consumerKey];
          options := options[ConsumerSecretOption := consumerSecret];
          outcome := Saved;
        } else {
          outcome := Rejected(errors);
        }
        SaveNotices(websiteUrl, consumerKey, consumerSecret, wp.isValidUrl);
      }
      notices := Notices(outcome);
    }
  }
}
