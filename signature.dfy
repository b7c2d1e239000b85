/**
 * The WeChat server-verification handshake (`verify` in main.py, handle-Flask.py and handle.py):
 * the secret token, `timestamp` and `nonce` are sorted, joined with no separator and hashed; the
 * hex digest must equal `signature`, and then `echostr` is sent back unchanged.
 *
 * SHA-1 (`hashlib.sha1(...).hexdigest()`) is a parameter `sha1`: the model says nothing about
 * it beyond its being a function of the joined string.
 */
module Signature {
  import opened Text

  /** What the handler answers: the echoed body, or an abort with an HTTP status. */
  datatype Reply = Echo(body: string) | Abort(status: int)

  /** `sha1(''.join(sorted([token, timestamp, nonce])))`. */
  function Digest(sha1: string -> string, token: string, timestamp: string, nonce: string): string
  {
    sha1(Concat(Sort([token, timestamp, nonce])))
  }

  /** The digest is the hash of ANY ascending arrangement of the three strings. */
  lemma DigestOfSortedArrangement(sha1: string -> string, token: string, timestamp: string, nonce: string,
                                  p: seq<string>)
    requires Sorted(p) && multiset(p) == multiset([token, timestamp, nonce])
    ensures Digest(sha1, token, timestamp, nonce) == sha1(Concat(p))
  {
    SortedUnique(Sort([token, timestamp, nonce]), p);
  }

  /** Exchanging `timestamp` and `nonce` leaves the digest unchanged. */
  lemma DigestSymmetric(sha1: string -> string, token: string, a: string, b: string)
    ensures Digest(sha1, token, a, b) == Digest(sha1, token, b, a)
  {
    assert multiset([token, a, b]) == multiset([token, b, a]);
    SortPermutationInvariant([token, a, b], [token, b, a]);
  }

  // ---------------------------------------------------------------- main.py

  /**
   * main.py `verify`: FastAPI has already required the four query parameters (an empty string
   * passes); the digest is compared with `signature`, a mismatch raises 403.
   */
  function VerifyMain(sha1: string -> string, token: string, signature: string, timestamp: string,
                      nonce: string, echostr: string): (r: Reply)
    ensures r == Echo(echostr) || r == Abort(403)
    ensures r == Echo(echostr) <==> Digest(sha1, token, timestamp, nonce) == signature
  {
    if Digest(sha1, token, timestamp, nonce) != signature then Abort(403) else Echo(echostr)
  }

  /** main.py `verify` against the sorted arrangement of its three inputs, however it is obtained. */
  lemma VerifyMainAcceptsSortedJoin(sha1: string -> string, token: string, signature: string,
                                    timestamp: string, nonce: string, echostr: string, p: seq<string>)
    requires Sorted(p) && multiset(p) == multiset([token, timestamp, nonce])
    ensures VerifyMain(sha1, token, signature, timestamp, nonce, echostr)
         == if sha1(Concat(p)) == signature then Echo(echostr) else Abort(403)
  {
    DigestOfSortedArrangement(sha1, token, timestamp, nonce, p);
  }

  // ---------------------------------------------------------------- handle-Flask.py, handle.py

  /** `request.args.get(name, '')`. */
  function Arg(args: map<string, string>, name: string): string
  {
    if name in args then args[name] else ""
  }

  /** `not all([signature, timestamp, nonce, echostr])`: some parameter is absent or empty. */
  predicate Missing(args: map<string, string>)
  {
    Arg(args, "signature") == "" || Arg(args, "timestamp") == "" ||
    Arg(args, "nonce") == "" || Arg(args, "echostr") == ""
  }

  /**
   * handle-Flask.py `verify`: 400 when a parameter is absent or empty, decided before any hash
   * (so for every `sha1`); otherwise 403 on a digest mismatch and the echo on a match.
   */
  function VerifyFlask(sha1: string -> string, token: string, args: map<string, string>): (r: Reply)
    ensures r == Abort(400) <==> Missing(args)
    ensures r.Abort? ==> r.status == 400 || r.status == 403
    ensures r.Echo? ==> r.body == Arg(args, "echostr") && r.body != ""
  {
    if Missing(args) then Abort(400)
    else if Digest(sha1, token, Arg(args, "timestamp"), Arg(args, "nonce")) != Arg(args, "signature") then Abort(403)
    else Echo(Arg(args, "echostr"))
  }

  /** With every parameter present, handle-Flask.py `verify` echoes exactly when the sorted join hashes to `signature`. */
  lemma VerifyFlaskAcceptsSortedJoin(sha1: string -> string, token: string, args: map<string, string>,
                                     p: seq<string>)
    requires !Missing(args)
    requires Sorted(p) && multiset(p) == multiset([token, Arg(args, "timestamp"), Arg(args, "nonce")])
    ensures VerifyFlask(sha1, token, args)
         == if sha1(Concat(p)) == Arg(args, "signature") then Echo(Arg(args, "echostr")) else Abort(403)
  {
    DigestOfSortedArrangement(sha1, token, Arg(args, "timestamp"), Arg(args, "nonce"), p);
  }

  /** The secret handle.py hashes. */
  const HandleToken: string := "sk_wechat"

  /** handle.py `verify`: the handle-Flask.py check with the fixed secret `'sk_wechat'`. */
  function VerifyHandle(sha1: string -> string, args: map<string, string>): (r: Reply)
    ensures r == Abort(400) <==> Missing(args)
    ensures !Missing(args) ==>
              (r == Echo(Arg(args, "echostr")) <==>
               Digest(sha1, "sk_wechat", Arg(args, "timestamp"), Arg(args, "nonce")) == Arg(args, "signature"))
    ensures (!Missing(args) &&
             Digest(sha1, "sk_wechat", Arg(args, "timestamp"), Arg(args, "nonce")) != Arg(args, "signature"))
            ==> r == Abort(403)
    ensures r.Abort? ==> r.status == 400 || r.status == 403
    ensures r.Echo? ==> r.body == Arg(args, "echostr")
  {
    VerifyFlask(sha1, HandleToken, args)
  }

  /** handle.py `verify` gives the same verdict when the `timestamp` and `nonce` values are exchanged. */
  lemma VerifyHandleSwapInvariant(sha1: string -> string, args: map<string, string>, a: string, b: string)
    ensures VerifyHandle(sha1, args["timestamp" := a]["nonce" := b])
         == VerifyHandle(sha1, args["timestamp" := b]["nonce" := a])
  {
    var x, y := args["timestamp" := a]["nonce" := b], args["timestamp" := b]["nonce" := a];
    assert Arg(x, "timestamp") == a && Arg(x, "nonce") == b;
    assert Arg(y, "timestamp") == b && Arg(y, "nonce") == a;
    assert Arg(x, "signature") == Arg(y, "signature") && Arg(x, "echostr") == Arg(y, "echostr");
    assert Missing(x) == Missing(y);
    DigestSymmetric(sha1, HandleToken, a, b);
    assert VerifyHandle(sha1, x) == VerifyFlask(sha1, HandleToken, x);
    assert VerifyHandle(sha1, y) == VerifyFlask(sha1, HandleToken, y);
  }
}
