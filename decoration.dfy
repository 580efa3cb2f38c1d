/** `withErrorDecoration` of packages/validator/src/core.ts: the step that
    turns a failure inside a nested spec into a fully qualified error path. */
module Decoration {
  import opened Values

  /** JavaScript truthiness of a thrown value used as `err.inner`: only the
      empty reason string is falsy; every object payload is truthy. */
  predicate Truthy(e: Error) {
    !(e.Reason? && e.msg == "")
  }

  /** What the catch block rethrows for `key`: a thrown `{path, inner}` with a
      truthy `inner` gets `key` prepended to its path, anything else is
      wrapped as `{path: [key], inner: err}`. */
  function Decorate(key: Key, e: Error): (r: Error)
    ensures r.Path? && |r.path| >= 1 && r.path[0] == key
    ensures e.Path? && Truthy(e.inner) ==> r.path[1..] == e.path && r.inner == e.inner
    ensures !(e.Path? && Truthy(e.inner)) ==> r.path == [key] && r.inner == e
  {
    if e.Path? && Truthy(e.inner) then Path([key] + e.path, e.inner)
    else Path([key], e)
  }

  /** `withErrorDecoration(key, call)` where `r` is the outcome of `call()`. */
  function WithErrorDecoration<T>(key: Key, r: Result<T>): (o: Result<T>)
    ensures r.Ok? ==> o == r
    ensures r.Fail? ==> o.Fail? && o.error == Decorate(key, r.error)
  {
    match r
    case Ok(_) => r
    case Fail(e) => Fail(Decorate(key, e))
  }

  /** Decoration applied once per nesting level, innermost key last. */
  function DecorateAll(keys: seq<Key>, e: Error): (r: Error)
    ensures keys == [] ==> r == e
    ensures keys != [] ==> r.Path? && |r.path| >= 1 && r.path[0] == keys[0]
  {
    if keys == [] then e else Decorate(keys[0], DecorateAll(keys[1..], e))
  }

  /** A truthy innermost error decorated through `n` levels carries exactly
      the `n` keys, outermost first, and is itself left unchanged. */
  lemma {:induction false} DecorationQualifiesPath(keys: seq<Key>, e: Error)
    requires keys != []
    requires !e.Path? && Truthy(e)
    ensures DecorateAll(keys, e) == Path(keys, e)
  {
    if |keys| == 1 {
      assert DecorateAll(keys[1..], e) == e;
    } else {
      DecorationQualifiesPath(keys[1..], e);
      assert [keys[0]] + keys[1..] == keys;
    }
  }

  /** An already qualified error only grows at the front. */
  lemma {:induction false} DecorationExtendsPath(keys: seq<Key>, p: seq<Key>, inner: Error)
    requires Truthy(inner)
    ensures DecorateAll(keys, Path(p, inner)) == Path(keys + p, inner)
  {
    if keys == [] {
      assert keys + p == p;
    } else {
      var rest := DecorateAll(keys[1..], Path(p, inner));
      DecorationExtendsPath(keys[1..], p, inner);
      assert rest == Path(keys[1..] + p, inner);
      assert DecorateAll(keys, Path(p, inner)) == Path([keys[0]] + rest.path, inner);
      var joined := [keys[0]] + (keys[1..] + p);
      assert joined == keys + p by {
        assert |joined| == |keys + p|;
        forall i | 0 <= i < |joined| ensures joined[i] == (keys + p)[i] {
          if i > 0 {
            assert joined[i] == (keys[1..] + p)[i - 1];
          }
        }
      }
    }
  }

  /** A falsy inner reason is not recognised as a path: it gets wrapped
      again instead of extended. */
  lemma EmptyReasonIsWrappedAgain(k1: Key, k2: Key)
    ensures DecorateAll([k1, k2], Reason("")) == Path([k1], Path([k2], Reason("")))
  {
    assert DecorateAll([k2], Reason("")) == Path([k2], Reason(""));
  }
}
