/** The at-rest blob format of internal/core/secretbox/secretbox.go. Byte strings are modelled as `string`.
    The NaCl box and base64 are parameters, constrained by `Lawful` where a theorem needs them. */
module SecretBox {
  import opened Wrappers

  /** `box`/`unbox` take key, nonce and payload; `enc`/`dec` are base64. */
  datatype Primitives = Primitives(
    box: (string, string, string) -> string,
    unbox: (string, string, string) -> Option<string>,
    enc: string -> string,
    dec: string -> Option<string>)

  ghost predicate Lawful(c: Primitives) {
    && (forall k, n, p :: c.unbox(k, n, c.box(k, n, p)) == Some(p))
    && (forall b :: c.dec(c.enc(b)) == Some(b) && '$' !in c.enc(b))
  }

  const NONCE_LEN := 24
  const PREFIX := "v1"

  predicate IsBlob(s: string) {
    PREFIX + "$" <= s
  }

  /** Position of the first `$`, or the length when there is none. */
  function IndexOfDollar(s: string): (i: nat)
    ensures i <= |s| && '$' !in s[..i] && (i < |s| ==> s[i] == '$')
  {
    if s == "" || s[0] == '$' then 0 else 1 + IndexOfDollar(s[1..])
  }

  /** strings.SplitN(s, "$", n) for n >= 1. */
  function SplitN(s: string, n: nat): (parts: seq<string>)
    requires n >= 1
    ensures 1 <= |parts| <= n
  {
    var i := IndexOfDollar(s);
    if n == 1 || i == |s| then [s] else [s[..i]] + SplitN(s[i + 1..], n - 1)
  }

  function SealWith(c: Primitives, key: string, nonce: string, plaintext: string): string {
    if plaintext == "" then ""
    else PREFIX + "$" + c.enc(nonce) + "$" + c.enc(c.box(key, nonce, plaintext))
  }

  function OpenWith(c: Primitives, key: string, blob: string): Result<string> {
    if blob == "" then Ok("")
    else
      var parts := SplitN(blob, 3);
      if |parts| != 3 || parts[0] != PREFIX then Err
      else
        match c.dec(parts[1])
        case None => Err
        case Some(nonce) =>
          if |nonce| != NONCE_LEN then Err
          else
            match c.dec(parts[2])
            case None => Err
            case Some(ct) =>
              match c.unbox(key, nonce, ct)
              case None => Err
              case Some(plain) => Ok(plain)
  }

  lemma SplitAtDollar(a: string, rest: string, n: nat)
    requires '$' !in a && n >= 2
    ensures SplitN(a + "$" + rest, n) == [a] + SplitN(rest, n - 1)
  {
    var s := a + "$" + rest;
    var i := IndexOfDollar(s);
    assert s[|a|] == '$';
    assert forall j :: 0 <= j < |a| ==> s[j] in a;
    assert forall j :: 0 <= j < i ==> s[j] in s[..i];
    assert i == |a|;
    assert s[..i] == a && s[i + 1..] == rest;
  }

  /** A sealed value opens, under the same key, to what was sealed; it is a recognisable blob unless there
      was nothing to seal. */
  lemma OpenSeal(c: Primitives, key: string, nonce: string, plaintext: string)
    requires Lawful(c) && |nonce| == 24
    ensures OpenWith(c, key, SealWith(c, key, nonce, plaintext)) == Ok(plaintext)
    ensures IsBlob(SealWith(c, key, nonce, plaintext)) <==> plaintext != ""
  {
    if plaintext != "" {
      var n, ct := c.enc(nonce), c.enc(c.box(key, nonce, plaintext));
      var blob := SealWith(c, key, nonce, plaintext);
      assert blob == PREFIX + "$" + (n + "$" + ct);
      SplitAtDollar(PREFIX, n + "$" + ct, 3);
      SplitAtDollar(n, ct, 2);
      assert SplitN(blob, 3) == [PREFIX, n, ct];
      assert blob[..3] == PREFIX + "$";
    }
  }

  /** A blob in its three parts; the last may hold further separators. */
  predicate Parts(blob: string, nonce64: string, sealed64: string) {
    blob == "v1$" + nonce64 + "$" + sealed64 && '$' !in nonce64
  }

  lemma SplitInThree(blob: string)
    ensures |SplitN(blob, 3)| == 3 && SplitN(blob, 3)[0] == "v1" <==> exists n, ct :: Parts(blob, n, ct)
    ensures forall n, ct :: Parts(blob, n, ct) ==> SplitN(blob, 3) == ["v1", n, ct]
  {
    forall n, ct | Parts(blob, n, ct)
      ensures SplitN(blob, 3) == ["v1", n, ct]
    {
      assert blob == "v1" + "$" + (n + "$" + ct);
      SplitAtDollar("v1", n + "$" + ct, 3);
      SplitAtDollar(n, ct, 2);
    }
    var parts := SplitN(blob, 3);
    if |parts| == 3 && parts[0] == "v1" {
      var i := IndexOfDollar(blob);
      var rest := blob[i + 1..];
      var j := IndexOfDollar(rest);
      assert parts == [blob[..i]] + SplitN(rest, 2);
      assert SplitN(rest, 2) == [rest[..j], rest[j + 1..]];
      assert rest == rest[..j] + "$" + rest[j + 1..];
      assert blob == "v1" + "$" + rest;
      assert Parts(blob, rest[..j], rest[j + 1..]);
    }
  }

  /** What opens is the empty text, and a blob of this version whose two parts decode, the first to a nonce of 24
      bytes, and whose box opens; and it opens to what the box held. */
  lemma OpensExactly(c: Primitives, key: string, blob: string, plaintext: string)
    ensures OpenWith(c, key, blob) == Ok(plaintext) <==>
            || (blob == "" && plaintext == "")
            || exists n, ct ::
                 && Parts(blob, n, ct) && c.dec(n).Some? && c.dec(ct).Some? && |c.dec(n).value| == 24
                 && c.unbox(key, c.dec(n).value, c.dec(ct).value) == Some(plaintext)
  {
    SplitInThree(blob);
  }
}
