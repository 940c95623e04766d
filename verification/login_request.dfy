/** The login request of the FTCom client: it holds a username and a
    password, posts them as a two-part form to the URL that two chained
    `arg` calls build from the configured domain and locale (the login
    endpoint when the domain holds no `%`), and classifies the server's
    reply. */
module Login {
  import opened Wrappers
  import Utf8
  import opened QStringArg

  /** One part of a `multipart/form-data` body. */
  datatype FormPart = FormPart(disposition: string, body: seq<Utf8.Byte>)

  /** The request `send` hands to the network layer. */
  datatype Post = Post(url: string, parts: seq<FormPart>)

  /** The `Content-Disposition` header of a form field called `name`. */
  function Disposition(name: string): string {
    "form-data; name=\"" + name + "\""
  }

  /** The login endpoint of `domain` for `locale`: both are inserted
      verbatim, whatever characters they hold. */
  function LoginUrl(domain: string, locale: string): (url: string)
    ensures |url| == |domain| + |locale| + 18
    ensures url[..7] == "http://"
    ensures url[7..7 + |domain|] == domain
    ensures url[7 + |domain|] == '/'
    ensures url[8 + |domain|..8 + |domain| + |locale|] == locale
    ensures url[8 + |domain| + |locale|..] == "/api/login"
  {
    "http://" + domain + "/" + locale + "/api/login"
  }

  /** The URL template and the two chained `arg` calls, as written. */
  const UrlTemplate: string := "http://%1/%2/api/login"

  function UrlAsWritten(domain: string, locale: string): string {
    Arg(Arg(UrlTemplate, domain), locale)
  }

  lemma TemplatePieces()
    ensures UrlTemplate == "http://" + (['%', '1'] + ("/" + (['%', '2'] + "/api/login")))
  {
  }

  lemma Regroup(domain: string, tail: string)
    ensures "http://" + (domain + ("/" + tail)) == ("http://" + domain + "/") + tail
  {
  }

  /** The first `arg` fills `%1` with the domain and keeps `%2`. */
  lemma FirstArg(domain: string)
    ensures Arg(UrlTemplate, domain) == ("http://" + domain + "/") + (['%', '2'] + "/api/login")
  {
    TemplatePieces();
    ArgFirstOfTwo("http://", "/", "/api/login", domain);
    Regroup(domain, ['%', '2'] + "/api/login");
  }

  /** With no `%` in the domain, the second `arg` finds only the template's
      `%2` and fills it with the locale. */
  lemma SecondArg(domain: string, locale: string)
    requires '%' !in domain
    ensures Arg(("http://" + domain + "/") + (['%', '2'] + "/api/login"), locale) == LoginUrl(domain, locale)
  {
    var head := "http://" + domain + "/";
    assert forall c :: c in head ==> c in "http://" || c in domain || c == '/';
    ArgSingleMarker(head, '2', "/api/login", locale);
    assert head + (locale + "/api/login") == LoginUrl(domain, locale);
  }

  /** Without `%` in the domain, the chained `arg` calls give the login
      endpoint. */
  lemma UrlAgreesWithoutPercent(domain: string, locale: string)
    requires '%' !in domain
    ensures UrlAsWritten(domain, locale) == LoginUrl(domain, locale)
  {
    FirstArg(domain);
    SecondArg(domain, locale);
  }

  /** With `%1` ending the domain, the second `arg` finds that marker
      first and fills it with the locale, leaving the template's `%2`. */
  lemma SecondArgWithMarker(p: string, locale: string)
    requires '%' !in p
    ensures Arg(("http://" + (p + ['%', '1']) + "/") + (['%', '2'] + "/api/login"), locale)
            == "http://" + p + locale + "/" + ['%', '2'] + "/api/login"
  {
    var tail := "/" + (['%', '2'] + "/api/login");
    assert ("http://" + (p + ['%', '1']) + "/") + (['%', '2'] + "/api/login") == ("http://" + p) + (['%', '1'] + tail);
    assert '%' !in "http://" + p by {
      assert forall c :: c in "http://" + p ==> c in "http://" || c in p;
    }
    ArgFirstOfTwo("http://" + p, "/", "/api/login", locale);
    assert ("http://" + p) + (locale + tail) == "http://" + p + locale + "/" + ['%', '2'] + "/api/login";
  }

  /** The URL built with the locale in place of the domain's `%1` differs
      from the login endpoint where that `%1` should stand. */
  lemma OnesWritten(head: string, locale: string)
    ensures multiset(head + locale + "/%2" + "/api/login")['1'] == multiset(head)['1'] + multiset(locale)['1']
  {
    assert '1' !in "/api/login";
    assert '1' !in "/%2";
  }

  lemma OnesIntended(head: string, locale: string)
    ensures multiset(head + "%1/" + locale + "/api/login")['1'] == multiset(head)['1'] + 1 + multiset(locale)['1']
  {
    assert '1' !in "/api/login";
    assert multiset("%1/")['1'] == 1;
  }

  /** The URL with the locale in place of the domain's `%1` holds one `1`
      fewer than the login endpoint of that domain, so the two differ,
      whatever the locale. */
  lemma MisplacedLocale(p: string, locale: string)
    ensures "http://" + p + locale + "/" + ['%', '2'] + "/api/login" != LoginUrl(p + ['%', '1'], locale)
  {
    var head := "http://" + p;
    assert "http://" + p + locale + "/" + ['%', '2'] + "/api/login" == head + locale + "/%2" + "/api/login";
    assert LoginUrl(p + ['%', '1'], locale) == head + "%1/" + locale + "/api/login";
    OnesWritten(head, locale);
    OnesIntended(head, locale);
  }

  /** A `%1` at the end of the domain is filled by the second `arg` with
      the locale, whatever the locale holds, the template's own `%2` stays
      in the URL, and the URL is not the login endpoint of that domain. */
  lemma PercentInDomainCorruptsUrl(p: string, locale: string)
    requires '%' !in p
    ensures UrlAsWritten(p + ['%', '1'], locale) == "http://" + p + locale + "/" + ['%', '2'] + "/api/login"
    ensures UrlAsWritten(p + ['%', '1'], locale) != LoginUrl(p + ['%', '1'], locale)
  {
    FirstArg(p + ['%', '1']);
    SecondArgWithMarker(p, locale);
    MisplacedLocale(p, locale);
  }

  /** With a marker numbered 3 or more ending the domain, the second `arg`
      finds the template's `%2` as the lowest marker, fills it with the
      locale and keeps the domain's marker. */
  lemma SecondArgWithHigherMarker(p: string, d: char, locale: string)
    requires '%' !in p && IsDigit(d) && DigitValue(d) > 2
    ensures Arg(("http://" + (p + ['%', d]) + "/") + (['%', '2'] + "/api/login"), locale)
            == LoginUrl(p + ['%', d], locale)
  {
    var tail := "/" + (['%', '2'] + "/api/login");
    assert ("http://" + (p + ['%', d]) + "/") + (['%', '2'] + "/api/login") == ("http://" + p) + (['%', d] + tail);
    assert '%' !in "http://" + p by {
      assert forall c :: c in "http://" + p ==> c in "http://" || c in p;
    }
    ArgSecondOfTwo("http://" + p, d, "/", "/api/login", locale);
    assert ("http://" + p) + (['%', d] + ("/" + (locale + "/api/login"))) == LoginUrl(p + ['%', d], locale);
  }

  /** A single-digit marker numbered 3 or more at the end of the domain
      is not the lowest marker left for the second `arg`: the template's
      `%2` is, so the URL is the login endpoint after all. */
  lemma HigherMarkerInDomainKept(p: string, d: char, locale: string)
    requires '%' !in p && IsDigit(d) && DigitValue(d) > 2
    ensures UrlAsWritten(p + ['%', d], locale) == LoginUrl(p + ['%', d], locale)
  {
    FirstArg(p + ['%', d]);
    SecondArgWithHigherMarker(p, d, locale);
  }

  lemma ExampleUrlText(p: string, locale: string)
    requires p == "a" && locale == "ru"
    ensures "http://" + p + locale + "/" + ['%', '2'] + "/api/login" == "http://aru/%2/api/login"
  {
  }

  /** The smallest instance: domain `a%1`, locale `ru`. */
  lemma PercentInDomainExample(domain: string, locale: string)
    requires domain == "a%1" && locale == "ru"
    ensures UrlAsWritten(domain, locale) == "http://aru/%2/api/login"
    ensures UrlAsWritten(domain, locale) != LoginUrl(domain, locale)
  {
    var p := "a";
    assert domain == p + ['%', '1'];
    PercentInDomainCorruptsUrl(p, locale);
    ExampleUrlText(p, locale);
  }

  class LoginRequest {
    var user: string
    var pswd: string
    /** The server and the language the base request is configured with. */
    const domain: string
    const locale: string

    constructor (domain: string, locale: string)
      ensures this.domain == domain && this.locale == locale
      ensures user == "" && pswd == ""
    {
      this.domain := domain;
      this.locale := locale;
      user := "";
      pswd := "";
    }

    method Username() returns (u: string)
      ensures u == user
    {
      u := user;
    }

    method Password() returns (p: string)
      ensures p == pswd
    {
      p := pswd;
    }

    method SetUsername(u: string)
      modifies this
      ensures user == u && pswd == old(pswd)
    {
      user := u;
    }

    method SetPassword(p: string)
      modifies this
      ensures pswd == p && user == old(user)
    {
      pswd := p;
    }

    /** The URL: `QString("http://%1/%2/api/login").arg(domain).arg(locale)`. */
    static method BuildUrl(domain: string, locale: string) returns (url: string)
      ensures url == UrlAsWritten(domain, locale)
      ensures '%' !in domain ==> url == LoginUrl(domain, locale)
    {
      var withDomain := Arg(UrlTemplate, domain);
      url := Arg(withDomain, locale);
      if '%' !in domain {
        UrlAgreesWithoutPercent(domain, locale);
      }
    }

    /** The form: a `username` part, then a `password` part, each with the
        UTF-8 bytes of its field as body. */
    static method BuildForm(user: string, pswd: string) returns (parts: seq<FormPart>)
      ensures |parts| == 2
      ensures parts[0].disposition == "form-data; name=\"username\""
      ensures parts[1].disposition == "form-data; name=\"password\""
      ensures parts[0].body == Utf8.Encode(user) && parts[1].body == Utf8.Encode(pswd)
      ensures Utf8.Decode(parts[0].body) == Some(user) && Utf8.Decode(parts[1].body) == Some(pswd)
    {
      var userPart := FormPart(Disposition("username"), Utf8.Encode(user));
      var pswdPart := FormPart(Disposition("password"), Utf8.Encode(pswd));
      parts := [];
      parts := parts + [userPart];
      parts := parts + [pswdPart];
      Utf8.DecodeEncode(user);
      Utf8.DecodeEncode(pswd);
    }

    /** Builds the login form and addresses it to the URL the two chained
        `arg` calls build, which is the login endpoint whenever the domain
        holds no `%`. */
    method Send() returns (post: Post)
      ensures post.url == UrlAsWritten(domain, locale)
      ensures '%' !in domain ==> post.url == LoginUrl(domain, locale)
      ensures |post.parts| == 2
      ensures post.parts[0].disposition == "form-data; name=\"username\""
      ensures post.parts[1].disposition == "form-data; name=\"password\""
      ensures post.parts[0].body == Utf8.Encode(user) && post.parts[1].body == Utf8.Encode(pswd)
      ensures Utf8.Decode(post.parts[0].body) == Some(user) && Utf8.Decode(post.parts[1].body) == Some(pswd)
    {
      var parts := BuildForm(user, pswd);
      var url := BuildUrl(domain, locale);
      post := Post(url, parts);
    }
  }

  /** A JSON value as the classifier reads it: a whole number, a string, or
      anything else (a fractional number, a boolean, null, an array or an
      object, all of which `toInt` reads as 0 and `toString` as ""). */
  datatype JsonValue = JNumber(n: int) | JString(s: string) | JOther

  /** The reply body: empty, not a JSON object, or an object. */
  datatype Body = EmptyBody | NotAnObject | Object(members: map<string, JsonValue>)

  /** `QJsonValue::toInt()`: a whole number that fits in a 32-bit `int`,
      or the default 0 for any other value. */
  function ToInt(v: JsonValue): (r: int)
    ensures -0x8000_0000 <= r < 0x8000_0000
    ensures r != 0 ==> v.JNumber? && r == v.n
    ensures v.JNumber? && -0x8000_0000 <= v.n < 0x8000_0000 ==> r == v.n
  {
    if v.JNumber? && -0x8000_0000 <= v.n < 0x8000_0000 then v.n else 0
  }

  /** `QJsonValue::toString()`: the string, or "" for any other value. */
  function ToString(v: JsonValue): (r: string)
    ensures v.JString? ==> r == v.s
    ensures r != "" ==> v.JString? && r == v.s
  {
    if v.JString? then v.s else ""
  }

  /** What the classifier returns and the `message` notification it emits,
      if any. */
  datatype Reply = Reply(ok: bool, message: Option<string>)

  predicate HasMember(body: Body, key: string) {
    body.Object? && key in body.members
  }

  /** Classifies a reply: a success exactly when the HTTP code is 200 and
      the body's `status` is 0; a non-empty `message` string is passed on
      whatever the result. */
  function OnReplyDataReady(httpCode: int, body: Body): (r: Reply)
    ensures r.ok <==> httpCode == 200 && HasMember(body, "status") && ToInt(body.members["status"]) == 0
    ensures r.message.Some? <==> HasMember(body, "message") && body.members["message"].JString? && body.members["message"].s != ""
    ensures r.message.Some? ==> r.message.value == body.members["message"].s
  {
    var statusCode := if HasMember(body, "status") then ToInt(body.members["status"]) else -1;
    var message :=
      if HasMember(body, "message") && ToString(body.members["message"]) != "" then
        Some(ToString(body.members["message"]))
      else None;
    Reply(httpCode == 200 && statusCode == 0, message)
  }

  /** Any HTTP code other than 200 is a failure, whatever the body. */
  lemma NonOkHttpFails(httpCode: int, body: Body)
    requires httpCode != 200
    ensures !OnReplyDataReady(httpCode, body).ok
  {
  }

  /** Without a `status`, the status code keeps its initial -1 and the
      reply is a failure. */
  lemma MissingStatusFails(httpCode: int, body: Body)
    requires !HasMember(body, "status")
    ensures !OnReplyDataReady(httpCode, body).ok
  {
  }

  /** A `status` that is not a number reads as 0, so a 200 reply with it
      is a success. */
  lemma NonNumericStatusSucceeds(body: Body)
    requires HasMember(body, "status") && !body.members["status"].JNumber?
    ensures OnReplyDataReady(200, body).ok
  {
  }

  /** A numeric `status` within the 32-bit range reads as itself, so a
      200 reply with it succeeds iff that number is 0. */
  lemma InRangeStatusDecides(body: Body)
    requires HasMember(body, "status") && body.members["status"].JNumber?
    requires -0x8000_0000 <= body.members["status"].n < 0x8000_0000
    ensures OnReplyDataReady(200, body).ok <==> body.members["status"].n == 0
  {
  }

  /** The notification depends on the body alone. */
  lemma MessageIndependentOfHttpCode(c1: int, c2: int, body: Body)
    ensures OnReplyDataReady(c1, body).message == OnReplyDataReady(c2, body).message
  {
  }

  /** A whole-number `status` outside the 32-bit range reads as 0, so a
      200 reply with it is a success. */
  lemma OutOfRangeStatusSucceeds(body: Body)
    requires HasMember(body, "status") && body.members["status"].JNumber?
    requires !(-0x8000_0000 <= body.members["status"].n < 0x8000_0000)
    ensures OnReplyDataReady(200, body).ok
  {
  }

  /** Replies as the server sends them. */
  lemma SampleReplies()
    ensures OnReplyDataReady(200, Object(map["status" := JNumber(0)])) == Reply(true, None)
    ensures OnReplyDataReady(200, Object(map["status" := JNumber(1), "message" := JString("bad credentials")]))
            == Reply(false, Some("bad credentials"))
    ensures OnReplyDataReady(200, NotAnObject) == Reply(false, None)
    ensures OnReplyDataReady(500, Object(map["status" := JNumber(0), "message" := JString("")])) == Reply(false, None)
  {
  }
}
