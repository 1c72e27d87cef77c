/**
 * The response captor of the downloaders: every image the browser receives
 * is kept under its normalized link, the first body seen wins, and the
 * order in which keys were first stored is remembered so that a caller can
 * ask for the images captured since a mark.
 */
module Captor {
  import opened Wrappers
  import opened Text
  import opened Sequences
  import opened Urls
  import Planning

  /** A captured body and the extension inferred for it. */
  datatype Capture = Capture(body: seq<bv8>, ext: string)

  /** The response test of `_consume`: a key, and an image by content type or by link. */
  predicate IsImage(key: string, url: string, contentType: string)
  {
    key != "" && (Contains(contentType, "image/") || UrlExtension(url, 0).Some?)
  }

  /** `lst[start:]` for a list and an integer start, as Python clamps it. */
  function SliceFrom(s: seq<string>, start: int): (r: seq<string>)
    ensures 0 <= start <= |s| ==> r == s[start..]
    ensures start > |s| ==> r == []
    ensures start < 0 ==> r == s[Planning.Max(|s| + start, 0)..]
  {
    var i := if start < 0 then Planning.Max(|s| + start, 0) else Planning.Min(start, |s|);
    s[i..]
  }

  /** `NetCaptor` of the bot and of the two newer downloaders. */
  class NetCaptor {
    var data: map<string, Capture>
    var order: seq<string>

    /** `_order` is the stored keys, each once and none empty, in the order they arrived. */
    ghost predicate Valid()
      reads this
    {
      Distinct(order) && "" !in order &&
      forall k :: k in data <==> k in order
    }

    constructor()
      ensures Valid() && data == map[] && order == []
    {
      data := map[];
      order := [];
    }

    /**
     * `_consume`: `body` is None when reading the body failed, which the
     * source swallows. A new image key is stored with its body and
     * extension and appended to the order; anything else changes nothing.
     */
    method Consume(url: string, parts: Url, contentType: string, body: Option<seq<bv8>>)
      requires Valid()
      modifies this
      ensures Valid()
      ensures var key := NormalizeKey(parts);
        var ct := Lower(contentType);
        if IsImage(key, url, ct) && key !in old(data) && body.Some? then
          data == old(data)[key := Capture(body.value, InferExt(url, ct))] && order == old(order) + [key]
        else data == old(data) && order == old(order)
      ensures forall k :: k in old(data) ==> k in data && data[k] == old(data)[k]
    {
      var key := NormalizeKey(parts);
      var ct := Lower(contentType);
      if !IsImage(key, url, ct) {
        return;
      }
      if key in data {
        return;
      }
      if body.None? {
        return;
      }
      data := data[key := Capture(body.value, InferExt(url, ct))];
      order := order + [key];
    }

    /** `has`. */
    function Has(key: string): (r: bool)
      reads this
      requires Valid()
      ensures r <==> key in order
    {
      key in data
    }

    /** `take`; `self._data[key]` raises for a missing key, which is None here. */
    function Take(key: string): (r: Option<Capture>)
      reads this
      ensures r.Some? <==> key in data
      ensures r.Some? ==> r.value == data[key]
    {
      if key in data then Some(data[key]) else None
    }

    /** `order_since`: the keys stored after the first `start` ones. */
    function OrderSince(start: int): (r: seq<string>)
      reads this
      requires Valid()
      ensures r == SliceFrom(order, start)
      ensures Distinct(r) && "" !in r
      ensures forall k :: k in r ==> k in data
    {
      assert forall k :: k in SliceFrom(order, start) ==> k in order;
      SliceFrom(order, start)
    }
  }

  /**
   * The captor of the oldest downloader: the same first-body-wins map, without
   * an order.
   */
  class FirstBodyCaptor {
    var data: map<string, Capture>

    constructor()
      ensures data == map[]
    {
      data := map[];
    }

    /** `_consume`: an image key already captured is never overwritten. */
    method Consume(url: string, parts: Url, contentType: string, body: Option<seq<bv8>>)
      modifies this
      ensures var key := NormalizeKey(parts);
        var ct := Lower(contentType);
        data == if IsImage(key, url, ct) && key !in old(data) && body.Some? then
          old(data)[key := Capture(body.value, InferExt(url, ct))]
        else old(data)
      ensures forall k :: k in old(data) ==> k in data && data[k] == old(data)[k]
    {
      var key := NormalizeKey(parts);
      var ct := Lower(contentType);
      if IsImage(key, url, ct) && key !in data && body.Some? {
        data := data[key := Capture(body.value, InferExt(url, ct))];
      }
    }

    function Take(key: string): (r: Option<Capture>)
      reads this
      ensures r.Some? <==> key in data
      ensures r.Some? ==> r.value == data[key]
    {
      if key in data then Some(data[key]) else None
    }
  }
}
