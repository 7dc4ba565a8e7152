/**
 * The values the response conversion works on: the runtime's `Body`, and the parts
 * of the `http` crate that it uses (`HeaderMap`, `HeaderValue::to_str`, `Response`
 * and its parts). These crates are not part of this model; what is written here is
 * what the conversion relies on, stated as assumptions.
 */
module HttpTypes {
  import opened Wrappers

  newtype byte = x: int | 0 <= x < 256

  /** An HTTP payload: absent, UTF-8 text, or raw bytes. */
  datatype Body = Empty | Text(text: string) | Binary(bytes: seq<byte>)

  /** `Body::from(&str)` and `Body::from(String)`. */
  function BodyFromStr(s: string): Body
  {
    Text(s)
  }

  /** `Body::from(Vec<u8>)`. */
  function BodyFromBytes(b: seq<byte>): Body
  {
    Binary(b)
  }

  type HeaderName = string
  type HeaderValue = seq<byte>

  /**
   * A header map: its entries in insertion order. A name may occur more than
   * once (`append`); `map[name]` gives the first value stored for it.
   */
  type HeaderMap = seq<(HeaderName, HeaderValue)>

  /** `http::StatusCode` only holds three-digit codes. */
  type StatusCode = x: int | 100 <= x <= 999 witness 200

  datatype Parts = Parts(status: StatusCode, headers: HeaderMap)

  datatype Response<B> = Response(parts: Parts, body: B)

  /** `Response::new(body)` and the builder's starting point: status 200, no headers. */
  function NewResponse<B>(body: B): Response<B>
  {
    Response(Parts(200, []), body)
  }

  predicate Distinct<T(==)>(s: seq<T>)
  {
    forall i, j :: 0 <= i < j < |s| ==> s[i] != s[j]
  }

  /** The name of every entry, duplicates included, in order. */
  function Names(h: HeaderMap): (r: seq<HeaderName>)
    ensures |r| == |h|
    ensures forall i :: 0 <= i < |h| ==> r[i] == h[i].0
  {
    if h == [] then [] else [h[0].0] + Names(h[1..])
  }

  /** `HeaderMap::is_empty`. */
  predicate IsEmpty(h: HeaderMap)
  {
    |h| == 0
  }

  /** `map.get(name)`: the first value stored under `name`. */
  function Get(h: HeaderMap, k: HeaderName): (r: Option<HeaderValue>)
    ensures r.Some? <==> k in Names(h)
  {
    if h == [] then None
    else if h[0].0 == k then Some(h[0].1)
    else Get(h[1..], k)
  }

  /** Entry `i` is the first one named `k`. */
  predicate IsFirst(h: HeaderMap, k: HeaderName, i: int)
  {
    0 <= i < |h| && h[i].0 == k && forall j :: 0 <= j < i ==> h[j].0 != k
  }

  /** `Get` answers with the value of the first entry of that name; later values are shadowed. */
  lemma {:induction false} GetIsFirstValue(h: HeaderMap, k: HeaderName, i: int)
    requires IsFirst(h, k, i)
    ensures Get(h, k) == Some(h[i].1)
  {
    if i > 0 {
      assert IsFirst(h[1..], k, i - 1) by {
        forall j | 0 <= j < i - 1 ensures h[1..][j].0 != k {
          assert h[1..][j] == h[j + 1];
        }
      }
      GetIsFirstValue(h[1..], k, i - 1);
    }
  }

  /** `map[name]`, which panics when no entry has that name. */
  function Index(h: HeaderMap, k: HeaderName): HeaderValue
    requires k in Names(h)
  {
    Get(h, k).value
  }

  /** The names of `h` that are not in `seen`, each once, in order of first occurrence. */
  function KeysAfter(h: HeaderMap, seen: set<HeaderName>): (r: seq<HeaderName>)
    ensures Distinct(r)
    ensures forall k :: k in r <==> k in Names(h) && k !in seen
  {
    if h == [] then []
    else if h[0].0 in seen then KeysAfter(h[1..], seen)
    else [h[0].0] + KeysAfter(h[1..], seen + {h[0].0})
  }

  /** `map.keys()`: every distinct name once. */
  function Keys(h: HeaderMap): (r: seq<HeaderName>)
    ensures Distinct(r)
    ensures forall k :: k in r <==> k in Names(h)
  {
    KeysAfter(h, {})
  }

  /** `map.keys_len()`. */
  function KeysLen(h: HeaderMap): nat
  {
    |Keys(h)|
  }

  /** A map has no keys exactly when it has no entries, and never more keys than entries. */
  lemma KeysLenBounds(h: HeaderMap)
    ensures KeysLen(h) <= |h|
    ensures KeysLen(h) == 0 <==> IsEmpty(h)
  {
    var ks := Keys(h);
    if h != [] {
      assert h[0].0 in Names(h);
    }
    DistinctNamesBound(ks, Names(h));
  }

  /** A duplicate-free sequence drawn from `s` is no longer than `s`. */
  lemma {:induction false} DistinctNamesBound(ks: seq<HeaderName>, s: seq<HeaderName>)
    requires Distinct(ks)
    requires forall k :: k in ks ==> k in s
    ensures |ks| <= |s|
  {
    DistinctSubsetCard(ks, set k | k in s);
    SetOfSeqCard(s);
  }

  lemma {:induction false} DistinctSubsetCard(ks: seq<HeaderName>, bound: set<HeaderName>)
    requires Distinct(ks)
    requires forall k :: k in ks ==> k in bound
    ensures |ks| <= |bound|
  {
    if ks != [] {
      var rest := ks[1..];
      assert ks[0] !in rest by {
        forall j | 0 <= j < |rest| ensures rest[j] != ks[0] {
          assert rest[j] == ks[j + 1];
        }
      }
      DistinctSubsetCard(rest, bound - {ks[0]});
    }
  }

  lemma {:induction false} SetOfSeqCard(s: seq<HeaderName>)
    ensures |set k | k in s| <= |s|
  {
    if s != [] {
      var rest := s[1..];
      SetOfSeqCard(rest);
      assert (set k | k in s) == (set k | k in rest) + {s[0]};
    }
  }

  /**
   * The bytes that `HeaderValue::to_str` accepts: visible ASCII (0x20 to 0x7E) or
   * horizontal tab. This is the `http` crate's rule, taken here as an assumption.
   */
  predicate IsVisibleStr(v: HeaderValue)
  {
    forall i :: 0 <= i < |v| ==> v[i] == 9 || 32 <= v[i] < 127
  }

  /** The characters of `v`, one per byte. */
  function AsText(v: HeaderValue): string
  {
    seq(|v|, i requires 0 <= i < |v| => (v[i] as int) as char)
  }

  /** The bytes of an ASCII string, one per character (the form of `HeaderValue::from_static`). */
  function AsciiBytes(s: string): HeaderValue
  {
    seq(|s|, i requires 0 <= i < |s| => (s[i] as int % 256) as byte)
  }

  datatype ToStrError = NotVisibleAscii

  /** `HeaderValue::to_str`. */
  function ToStr(v: HeaderValue): (r: Result<string, ToStrError>)
    ensures r.Success? <==> IsVisibleStr(v)
    ensures r.Success? ==> |r.value| == |v| && forall i :: 0 <= i < |v| ==> r.value[i] as int == v[i] as int
  {
    if IsVisibleStr(v) then Success(AsText(v)) else Failure(NotVisibleAscii)
  }

  /** The string `to_str` returns carries exactly the bytes of the header value. */
  lemma ToStrRoundTrip(v: HeaderValue)
    requires IsVisibleStr(v)
    ensures AsciiBytes(ToStr(v).value) == v
  {
  }

  /** A header value written from printable ASCII text reads back as that text. */
  lemma FromStaticRoundTrip(s: string)
    requires forall i :: 0 <= i < |s| ==> ' ' <= s[i] <= '~'
    ensures ToStr(AsciiBytes(s)) == Success(s)
  {
    var v := AsciiBytes(s);
    forall i | 0 <= i < |s| ensures AsText(v)[i] == s[i] {
      assert v[i] as int == s[i] as int;
    }
    assert AsText(v) == s;
  }

  /** The single header every JSON helper sets: `content-type: application/json`. */
  function JsonContentType(): HeaderMap
  {
    [("content-type", AsciiBytes("application/json"))]
  }
}
