/**
 * The last step of `fetch_files_from_url`: the pool's per-URL outcomes (the
 * local path a download was saved to, or `None`) filtered down to the paths.
 */
module UrlFetch {
  import opened Wrappers

  /** `[f for f in local_files if f is not None]`. */
  function KeepFetched(localFiles: seq<Option<string>>): (r: seq<string>)
    ensures |r| <= |localFiles|
    ensures forall f :: f in r <==> Some(f) in localFiles
    decreases |localFiles|
  {
    if localFiles == [] then []
    else
      var rest := KeepFetched(localFiles[1..]);
      assert forall o :: o in localFiles <==> o == localFiles[0] || o in localFiles[1..];
      match localFiles[0]
      case None => rest
      case Some(f) => [f] + rest
  }

  /** The filter keeps input order: it distributes over concatenation. */
  lemma {:induction false} KeepFetchedAppend(a: seq<Option<string>>, b: seq<Option<string>>)
    ensures KeepFetched(a + b) == KeepFetched(a) + KeepFetched(b)
    decreases |a|
  {
    if a != [] {
      KeepFetchedAppend(a[1..], b);
      assert (a + b)[1..] == a[1..] + b;
    } else {
      assert a + b == b;
    }
  }

  /** A failed download contributes nothing; a saved one contributes its path. */
  lemma KeepFetchedSingle(o: Option<string>)
    ensures KeepFetched([o]) == if o.Some? then [o.value] else []
  {
  }

  /**
   * `fetch_files_from_url(urls)`, where `save(url)` is the outcome of
   * `save_url_to_temp(url)`: the saved paths, in URL order.
   */
  function FetchFilesFromUrl(urls: seq<string>, save: string -> Option<string>): (r: seq<string>)
    ensures |r| <= |urls|
    ensures forall f :: f in r <==> exists i :: 0 <= i < |urls| && save(urls[i]) == Some(f)
  {
    var localFiles := seq(|urls|, i requires 0 <= i < |urls| => save(urls[i]));
    assert forall f :: Some(f) in localFiles <==> exists i :: 0 <= i < |urls| && save(urls[i]) == Some(f) by {
      forall f ensures Some(f) in localFiles <==> exists i :: 0 <= i < |urls| && save(urls[i]) == Some(f) {
        if Some(f) in localFiles {
          var i :| 0 <= i < |localFiles| && localFiles[i] == Some(f);
          assert save(urls[i]) == Some(f);
        }
        if exists i :: 0 <= i < |urls| && save(urls[i]) == Some(f) {
          var i :| 0 <= i < |urls| && save(urls[i]) == Some(f);
          assert localFiles[i] == Some(f);
        }
      }
    }
    KeepFetched(localFiles)
  }

  /** Fetching one more URL appends its saved path, if any, after the earlier ones. */
  lemma FetchFilesFromUrlSnoc(urls: seq<string>, u: string, save: string -> Option<string>)
    ensures FetchFilesFromUrl(urls + [u], save) ==
            FetchFilesFromUrl(urls, save) + (if save(u).Some? then [save(u).value] else [])
  {
    var before := seq(|urls|, i requires 0 <= i < |urls| => save(urls[i]));
    var after := seq(|urls + [u]|, i requires 0 <= i < |urls + [u]| => save((urls + [u])[i]));
    assert after == before + [save(u)];
    KeepFetchedAppend(before, [save(u)]);
    KeepFetchedSingle(save(u));
  }
}
