/** The resource URIs: printed in main/main.cpp, taken apart in main/CoapServer.cpp. */
module Uris {
  import opened Common
  import opened Strings
  import opened Decimal

  /** The path of a resource: "<object>/0/<resource>". */
  function Uri(obj: int, resource: int): string {
    ToString(obj) + "/0/" + ToString(resource)
  }

  const AUTHORITY := "[fd73:13f6:c3ed:1:d8bd:9673:d9cd:a562]:5184"

  /** The target of a forwarded Matter interaction. */
  function Target(obj: int, resource: int): string {
    Address(AUTHORITY, Uri(obj, resource))
  }

  function Address(authority: string, path: string): string {
    "coap://" + authority + "/" + path
  }

  /** The path libcoap hands to a request handler: what follows the scheme and the authority. */
  function PathOf(target: string): string {
    var ps := Split(target, '/');
    if |ps| > 3 then Join(ps[3..], '/') else ""
  }

  /** How every forwarding function recovers the object and resource ids from a path. */
  function ParseIds(uri: string): Result<(int32, int32)> {
    var ps := Split(uri, '/');
    var obj :- Stoi(ps[0]);
    if |ps| <= 2 then Err(OutOfRange)
    else
      var resource :- Stoi(ps[2]);
      Ok((obj, resource))
  }

  /** The path of a resource has three fields, the second of which is always 0. */
  lemma UriFields(obj: int, resource: int)
    ensures Split(Uri(obj, resource), '/') == [ToString(obj), "0", ToString(resource)]
  {
    var o, r := ToString(obj), ToString(resource);
    ToStringChars(obj);
    ToStringChars(resource);
    UriText(o, r);
    SplitField(o, "0" + ['/'] + r, '/');
    SplitField("0", r, '/');
    SplitFree(r, '/');
  }

  lemma UriText(o: string, r: string)
    ensures o + "/0/" + r == o + ['/'] + ("0" + ['/'] + r)
  {
    assert "/0/" == ['/'] + ("0" + ['/']);
  }

  /** Parsing undoes printing on every pair of ids an int can hold. */
  lemma ParseOfUri(obj: int32, resource: int32)
    ensures ParseIds(Uri(obj, resource)) == Ok((obj, resource))
  {
    UriFields(obj, resource);
    StoiOfToString(obj);
    StoiOfToString(resource);
  }

  /** Distinct resources have distinct URIs. */
  lemma UriInjective(obj: int, resource: int, obj': int, resource': int)
    requires Uri(obj, resource) == Uri(obj', resource')
    ensures obj == obj' && resource == resource'
  {
    UriFields(obj, resource);
    UriFields(obj', resource');
    assert ToString(obj) == Split(Uri(obj, resource), '/')[0] == ToString(obj');
    assert ToString(resource) == Split(Uri(obj, resource), '/')[2] == ToString(resource');
    ToStringInjective(obj, obj');
    ToStringInjective(resource, resource');
  }

  /** The text of a target. */
  lemma TargetIs(obj: int, resource: int)
    ensures Target(obj, resource)
         == "coap://" + "[fd73:13f6:c3ed:1:d8bd:9673:d9cd:a562]:5184" + "/"
            + (ToString(obj) + "/0/" + ToString(resource))
  {
  }

  lemma AddressFields(authority: string, path: string)
    requires '/' !in authority
    ensures Split(Address(authority, path), '/') == ["coap:"] + ([""] + ([authority] + Split(path, '/')))
  {
    var rest := authority + ['/'] + path;
    var tail := "" + ['/'] + rest;
    SplitField(authority, path, '/');
    SplitField("", rest, '/');
    SplitField("coap:", tail, '/');
    AddressText(authority, path, rest, tail);
  }

  lemma AddressText(authority: string, path: string, rest: string, tail: string)
    requires rest == authority + ['/'] + path && tail == "" + ['/'] + rest
    ensures Address(authority, path) == "coap:" + ['/'] + tail
  {
    assert "coap://" == "coap:" + ['/'] + ['/'];
    assert tail == ['/'] + rest;
  }

  lemma PathAfterAuthority(authority: string, path: string)
    requires '/' !in authority
    ensures PathOf(Address(authority, path)) == path
  {
    AddressFields(authority, path);
    DropThree("coap:", "", authority, Split(path, '/'));
    JoinOfSplit(path, '/');
  }

  lemma DropThree(a: string, b: string, c: string, rest: seq<string>)
    ensures ([a] + ([b] + ([c] + rest)))[3..] == rest
  {
  }

  lemma AuthorityHasNoSlash()
    ensures '/' !in AUTHORITY
  {
  }

  /** The path of a target is the resource URI. */
  lemma PathOfTarget(obj: int, resource: int)
    ensures PathOf(Target(obj, resource)) == Uri(obj, resource)
  {
    AuthorityHasNoSlash();
    PathAfterAuthority(AUTHORITY, Uri(obj, resource));
  }
}
