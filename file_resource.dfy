/**
  `FileResource.get_anchor`: the redirect keys that mention an `http://` URL
  are turned into the URL list of the response. The keys come from the
  key-value store and are an input here.
  */
module FileResource {
  import opened Text

  /** The marker a key must contain to be kept. */
  const HTTP_MARKER := "http://"

  /** Number of leading `:`-separated fields of a key dropped before the URL. */
  const PREFIX_FIELDS: nat := 6

  /** `''.join(key.split(':')[6:])`. */
  function AnchorUrl(key: string): (url: string)
    ensures url == Strip(SkipFields(key, ':', PREFIX_FIELDS), ':')
    ensures ':' !in url
  {
    ConcatDropSplit(key, ':', PREFIX_FIELDS);
    Concat(DropFields(Split(key, ':'), PREFIX_FIELDS))
  }

  /** `[AnchorUrl(k) for k in keys if 'http://' in k]`. */
  function AnchorUrls(keys: seq<string>): (urls: seq<string>)
    ensures |urls| <= |keys|
    ensures forall i :: 0 <= i < |urls| ==> ':' !in urls[i]
  {
    if keys == [] then []
    else if Contains(keys[0], HTTP_MARKER) then [AnchorUrl(keys[0])] + AnchorUrls(keys[1..])
    else AnchorUrls(keys[1..])
  }

  /** A single key yields one URL when it holds `http://` somewhere and nothing otherwise. */
  lemma AnchorUrlsSingle(key: string)
    ensures AnchorUrls([key]) ==
      if exists i :: OccursAt(key, HTTP_MARKER, i) then [AnchorUrl(key)] else []
  {
    assert [key][1..] == [];
  }

  /** The extraction works key by key: it keeps the input order. */
  lemma {:induction false} AnchorUrlsAppend(a: seq<string>, b: seq<string>)
    ensures AnchorUrls(a + b) == AnchorUrls(a) + AnchorUrls(b)
  {
    if a == [] {
      assert a + b == b;
    } else {
      assert (a + b)[1..] == a[1..] + b;
      AnchorUrlsAppend(a[1..], b);
    }
  }

  /** A key built from `:`-free fields yields the concatenation of its fields
      from the seventh on: the `:` after `http` and the one before a port
      number are lost with the other separators. */
  lemma AnchorUrlOfFields(fields: seq<string>)
    requires |fields| >= 1
    requires forall i :: 0 <= i < |fields| ==> ':' !in fields[i]
    ensures AnchorUrl(Join(fields, ':')) == Concat(DropFields(fields, PREFIX_FIELDS))
  {
    SplitJoin(fields, ':');
  }

  lemma AnchorUrlLosesColons(fields: seq<string>)
    requires fields == ["redirects", "v3", "en", "latest", "docs", "index", "http", "//h", "80/"]
    ensures AnchorUrl(Join(fields, ':')) == "http//h80/"
  {
    AnchorUrlOfFields(fields);
    var url := DropFields(fields, PREFIX_FIELDS);
    assert url == ["http", "//h", "80/"];
    assert Concat(url[2..]) == "80/" by {
      assert url[2..][1..] == [];
    }
    assert Concat(url[1..]) == "//h" + "80/" by {
      assert url[1..][1..] == url[2..];
    }
  }
}
