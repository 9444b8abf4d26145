/**
 * src/lib/mediaWatcher.ts: the watcher that turns a thread's posts into a
 * growing media list.
 *
 * Each pass walks the container's children (opaque post ids) in order, runs
 * the site serializer on each and derives a `Media` record per attachment.
 * Records are indexed by a key; the key function is a parameter, because the
 * source reads a property `id` that neither record type declares. A new key is
 * stored and appended to the list; a known key whose JSON snapshot differs is
 * overwritten in place. Listeners hear about a pass once, and only when it
 * added or changed something.
 *
 * The list holds the very objects the index holds (an in-place
 * `Object.assign` on an indexed record shows through the list), so the model
 * keeps the list as a sequence of keys into the index, and `MediaOf` resolves
 * it.
 */
module MediaWatching {
  import opened Wrappers
  import opened Text
  import opened Collections
  import opened Serializers

  /** A child element of the thread container. */
  type PostId = nat

  /** A subscribed listener callback. */
  type ListenerId = nat

  /**
   * The fields of a `Media` record that `JSON.stringify` writes. The
   * `postContainer` element has no enumerable own properties and is written
   * as `{}` in every record, and absent values are left out, so two snapshots
   * are equal exactly when these fields are.
   */
  datatype MediaData = MediaData(
    url: string,
    filename: string,
    thumbnailUrl: string,
    width: Option<int>,
    height: Option<int>,
    size: Option<string>,
    extension: string,
    isVideo: bool,
    isGif: bool,
    replies: Option<int>)

  /** A `Media` record: its data and the post element it came from. */
  datatype Media = Media(data: MediaData, postContainer: PostId)

  /**
   * `String(url.match(/\.([^.]+)$/)?.[1] || '').toLowerCase()`: the lower-cased
   * run of non-`.` characters after the last `.`, or "" when the URL has no
   * `.` or ends with one.
   */
  function Extension(url: string): (e: string)
    ensures e == "" <==> ('.' !in url || url[|url| - 1] == '.')
    ensures e != "" ==> |e| < |url| && url[|url| - |e| - 1] == '.'
                        && '.' !in url[|url| - |e|..] && e == Lower(url[|url| - |e|..])
  {
    match TailAfterLast(url, '.')
    case None => ""
    case Some(t) => Lower(t)
  }

  /** `!!extension.match(/webm?|mp4/)`: the pattern is unanchored, so it is a substring test. */
  predicate IsVideoExtension(extension: string)
    ensures IsVideoExtension(extension) ==> 3 <= |extension|
    ensures StartsWith(extension, "web") || StartsWith(extension, "mp4") ==> IsVideoExtension(extension)
  {
    ContainsIsNoLonger(extension, "web");
    ContainsIsNoLonger(extension, "mp4");
    Contains(extension, "web") || Contains(extension, "mp4")
  }

  /** The pattern accepts webm and mp4, and, being unanchored, webp too; gif and png are not videos. */
  lemma VideoExtensions()
    ensures IsVideoExtension("webm") && IsVideoExtension("mp4") && IsVideoExtension("webp")
    ensures !IsVideoExtension("gif") && !IsVideoExtension("png")
  {
    assert StartsWith("webm", "web");
    assert StartsWith("webp", "web");
    assert StartsWith("mp4", "mp4");
    assert "gif"[..3][0] == 'g' && "png"[..3][0] == 'p';
    assert "gif"[1..] == "if" && "png"[1..] == "ng";
    assert !Contains("if", "web") && !Contains("if", "mp4");
    assert !Contains("ng", "web") && !Contains("ng", "mp4");
  }

  /**
   * The record a serialized attachment becomes. It keeps the attachment's
   * fields and the post's reply count; it is a GIF exactly when its extension
   * is "gif", and a video exactly when its extension contains "web" or "mp4".
   */
  function MakeMedia(m: SerializedMedia, replies: Option<int>, post: PostId): (r: Media)
    ensures r.data.isGif <==> r.data.extension == "gif"
    ensures r.data.isVideo <==> Contains(r.data.extension, "web") || Contains(r.data.extension, "mp4")
    ensures r.data.extension == "" <==> ('.' !in m.url || m.url[|m.url| - 1] == '.')
    ensures r.data.url == m.url && r.data.filename == m.filename && r.data.thumbnailUrl == m.thumbnailUrl
    ensures r.data.width == m.width && r.data.height == m.height && r.data.size == m.size
    ensures r.data.replies == replies && r.postContainer == post
  {
    var extension := Extension(m.url);
    Media(MediaData(m.url, m.filename, m.thumbnailUrl, m.width, m.height, m.size,
                    extension, IsVideoExtension(extension), extension == "gif", replies),
          post)
  }

  /** One attachment met during a pass, with its key. */
  datatype Item<K> = Item(key: K, media: Media)

  /** The attachments of one post, in media order; none when the serializer returns null. */
  function PostItems<K(==,!new)>(keyOf: SerializedMedia -> K, serializer: PostId -> Option<SerializedPost>, post: PostId): seq<Item<K>> {
    match serializer(post)
    case None => []
    case Some(p) => MediaItems(keyOf, p.media, p.replies, post)
  }

  /** The attachments of a post's media entries, in order. */
  function MediaItems<K(==,!new)>(keyOf: SerializedMedia -> K, ms: seq<SerializedMedia>, replies: Option<int>, post: PostId): (r: seq<Item<K>>)
    ensures |r| == |ms|
  {
    if ms == [] then []
    else MediaItems(keyOf, ms[..|ms| - 1], replies, post) + [Item(keyOf(ms[|ms| - 1]), MakeMedia(ms[|ms| - 1], replies, post))]
  }

  lemma MediaItemsSnoc<K(!new)>(keyOf: SerializedMedia -> K, ms: seq<SerializedMedia>, replies: Option<int>, post: PostId, j: nat)
    requires j < |ms|
    ensures MediaItems(keyOf, ms[..j + 1], replies, post)
            == MediaItems(keyOf, ms[..j], replies, post) + [Item(keyOf(ms[j]), MakeMedia(ms[j], replies, post))]
  {
    assert ms[..j + 1][..j] == ms[..j];
  }

  /** The `i`-th item is the record and the key of the `i`-th media entry. */
  lemma {:induction false} MediaItemsAt<K(!new)>(keyOf: SerializedMedia -> K, ms: seq<SerializedMedia>, replies: Option<int>, post: PostId, i: nat)
    requires i < |ms|
    ensures MediaItems(keyOf, ms, replies, post)[i] == Item(keyOf(ms[i]), MakeMedia(ms[i], replies, post))
  {
    if i < |ms| - 1 {
      MediaItemsAt(keyOf, ms[..|ms| - 1], replies, post, i);
    }
  }

  /** All attachments of the given posts, in child order and then media order. */
  function Items<K(==,!new)>(keyOf: SerializedMedia -> K, serializer: PostId -> Option<SerializedPost>, posts: seq<PostId>): (r: seq<Item<K>>)
    ensures (forall p :: p in posts ==> serializer(p).None?) ==> r == []
  {
    if posts == [] then []
    else Items(keyOf, serializer, posts[..|posts| - 1]) + PostItems(keyOf, serializer, posts[|posts| - 1])
  }

  /** The local state of a pass: the index, `addedMedia` (as keys) and `hasChanges`. */
  datatype PassState<K> = PassState(byKey: map<K, Media>, added: seq<K>, changed: bool)

  /**
   * Handling of one attachment: its key ends up indexed; a new key is
   * appended; a known key is overwritten, and flags a change, exactly when
   * its data differ; every other key keeps its record.
   */
  function Step<K(==,!new)>(st: PassState<K>, x: Item<K>): (r: PassState<K>)
    ensures r.byKey.Keys == st.byKey.Keys + {x.key}
    ensures r.added == if x.key in st.byKey then st.added else st.added + [x.key]
    ensures r.changed <==> st.changed || (x.key in st.byKey && st.byKey[x.key].data != x.media.data)
    ensures r.byKey[x.key].data == x.media.data
    ensures x.key in st.byKey && st.byKey[x.key].data == x.media.data ==> r.byKey[x.key] == st.byKey[x.key]
    ensures forall k :: k in st.byKey && k != x.key ==> r.byKey[k] == st.byKey[k]
  {
    if x.key in st.byKey then
      if st.byKey[x.key].data != x.media.data then
        st.(byKey := st.byKey[x.key := x.media], changed := true)
      else st
    else
      st.(byKey := st.byKey[x.key := x.media], added := st.added + [x.key])
  }

  /**
   * The attachments handled one after another: `added` only grows, by at most
   * one key per attachment, `changed` is never reset, and no key leaves the
   * index.
   */
  function Fold<K(==,!new)>(st: PassState<K>, xs: seq<Item<K>>): (r: PassState<K>)
    ensures st.added <= r.added && |r.added| <= |st.added| + |xs|
    ensures st.changed ==> r.changed
    ensures st.byKey.Keys <= r.byKey.Keys
  {
    if xs == [] then st else Step(Fold(st, xs[..|xs| - 1]), xs[|xs| - 1])
  }

  /**
   * A whole pass over the given children, starting from the index `byKey`:
   * no key leaves the index, and at most one key is appended per attachment.
   */
  function Pass<K(==,!new)>(keyOf: SerializedMedia -> K, serializer: PostId -> Option<SerializedPost>,
                   byKey: map<K, Media>, posts: seq<PostId>): (r: PassState<K>)
    ensures byKey.Keys <= r.byKey.Keys
    ensures |r.added| <= |Items(keyOf, serializer, posts)|
  {
    Fold(PassState(byKey, [], false), Items(keyOf, serializer, posts))
  }

  /** The records a list of keys stands for. */
  function MediaOf<K(==,!new)>(byKey: map<K, Media>, keys: seq<K>): (r: seq<Media>)
    requires forall k :: k in keys ==> k in byKey
    ensures |r| == |keys| && forall i :: 0 <= i < |keys| ==> r[i] == byKey[keys[i]]
  {
    seq(|keys|, i requires 0 <= i < |keys| => byKey[keys[i]])
  }

  /** The keys of some attachments, in order. */
  function KeysOf<K(==,!new)>(xs: seq<Item<K>>): (r: seq<K>)
    ensures |r| == |xs| && forall i :: 0 <= i < |xs| ==> r[i] == xs[i].key
  {
    seq(|xs|, i requires 0 <= i < |xs| => xs[i].key)
  }

  /** The list is duplicate-free and holds exactly the indexed keys. */
  ghost predicate Indexed<K(!new)>(keys: seq<K>, byKey: map<K, Media>) {
    NoDup(keys) && forall k :: k in byKey <==> k in keys
  }

  lemma FoldSnoc<K(!new)>(st: PassState<K>, xs: seq<Item<K>>, x: Item<K>)
    ensures Fold(st, xs + [x]) == Step(Fold(st, xs), x)
  {
    assert (xs + [x])[..|xs|] == xs;
  }

  /** A known key that no attachment carries keeps its record. */
  lemma {:induction false} FoldKeepsUnmet<K(!new)>(st: PassState<K>, xs: seq<Item<K>>, k: K)
    requires k in st.byKey && k !in KeysOf(xs)
    ensures k in Fold(st, xs).byKey && Fold(st, xs).byKey[k] == st.byKey[k]
  {
    if xs != [] {
      var init := xs[..|xs| - 1];
      assert KeysOf(init) == KeysOf(xs)[..|xs| - 1];
      assert KeysOf(xs)[|xs| - 1] == xs[|xs| - 1].key;
      FoldKeepsUnmet(st, init, k);
    }
  }

  /** The index grows by exactly the keys a pass appends, and those were all unknown. */
  lemma PassAddsOnlyNew<K(!new)>(keyOf: SerializedMedia -> K, serializer: PostId -> Option<SerializedPost>,
                                 byKey: map<K, Media>, posts: seq<PostId>)
    ensures var r := Pass(keyOf, serializer, byKey, posts);
            && (forall k :: k in r.byKey <==> k in byKey || k in r.added)
            && (forall k :: k in r.added ==> k !in byKey)
  {
    FoldAddedAreIndexed(PassState(byKey, [], false), Items(keyOf, serializer, posts));
  }

  /** A pass leaves alone every record whose key none of its attachments carries. */
  lemma PassKeepsUnmet<K(!new)>(keyOf: SerializedMedia -> K, serializer: PostId -> Option<SerializedPost>,
                                byKey: map<K, Media>, posts: seq<PostId>, k: K)
    requires k in byKey && k !in KeysOf(Items(keyOf, serializer, posts))
    ensures k in Pass(keyOf, serializer, byKey, posts).byKey
    ensures Pass(keyOf, serializer, byKey, posts).byKey[k] == byKey[k]
  {
    FoldKeepsUnmet(PassState(byKey, [], false), Items(keyOf, serializer, posts), k);
  }

  /** The attachments of consecutive runs of children are those of each run in turn. */
  lemma {:induction false} ItemsAppend<K(!new)>(keyOf: SerializedMedia -> K, serializer: PostId -> Option<SerializedPost>,
                                                a: seq<PostId>, b: seq<PostId>)
    ensures Items(keyOf, serializer, a + b) == Items(keyOf, serializer, a) + Items(keyOf, serializer, b)
    decreases |b|
  {
    if b == [] {
      assert a + b == a;
    } else {
      var init := b[..|b| - 1];
      assert (a + b)[..|a + b| - 1] == a + init;
      assert (a + b)[|a + b| - 1] == b[|b| - 1];
      ItemsAppend(keyOf, serializer, a, init);
      AppendAssoc(Items(keyOf, serializer, a), Items(keyOf, serializer, init), PostItems(keyOf, serializer, b[|b| - 1]));
    }
  }

  /**
   * A key is never appended twice, not even when it repeats within one pass:
   * list and index stay in step and the list stays duplicate-free.
   */
  lemma {:induction false} FoldKeepsIndexed<K(!new)>(keys: seq<K>, st: PassState<K>, xs: seq<Item<K>>)
    requires Indexed(keys + st.added, st.byKey)
    ensures Indexed(keys + Fold(st, xs).added, Fold(st, xs).byKey)
  {
    if xs != [] {
      FoldKeepsIndexed(keys, st, xs[..|xs| - 1]);
      var s := Fold(st, xs[..|xs| - 1]);
      var x := xs[|xs| - 1];
      if x.key !in s.byKey {
        assert keys + (s.added + [x.key]) == (keys + s.added) + [x.key];
        NoDupSnoc(keys + s.added, x.key);
      }
    }
  }

  /** A pass keeps the list and the index in step. */
  lemma PassKeepsIndexed<K(!new)>(keyOf: SerializedMedia -> K, serializer: PostId -> Option<SerializedPost>,
                            keys: seq<K>, byKey: map<K, Media>, posts: seq<PostId>)
    requires Indexed(keys, byKey)
    ensures Indexed(keys + Pass(keyOf, serializer, byKey, posts).added, Pass(keyOf, serializer, byKey, posts).byKey)
  {
    assert keys + [] == keys;
    FoldKeepsIndexed(keys, PassState(byKey, [], false), Items(keyOf, serializer, posts));
  }

  /**
   * A reference definition of what a pass appends: the keys not known
   * before, each at its first occurrence, in the order met.
   */
  function FirstSeen<K(==,!new)>(known: set<K>, ks: seq<K>): seq<K> {
    if ks == [] then []
    else
      var before := FirstSeen(known, ks[..|ks| - 1]);
      var k := ks[|ks| - 1];
      if k in known || k in before then before else before + [k]
  }

  /** The keys a pass appends are exactly the first-seen new keys. */
  lemma {:induction false} FoldAddsFirstSeen<K(!new)>(st: PassState<K>, xs: seq<Item<K>>)
    requires st.added == []
    ensures Fold(st, xs).added == FirstSeen(st.byKey.Keys, KeysOf(xs))
    ensures forall k :: k in Fold(st, xs).byKey <==> k in st.byKey || k in KeysOf(xs)
  {
    if xs != [] {
      var init := xs[..|xs| - 1];
      var s := Fold(st, init);
      var x := xs[|xs| - 1];
      FoldAddsFirstSeen(st, init);
      assert KeysOf(xs)[..|xs| - 1] == KeysOf(init);
      assert x.key in s.byKey <==> x.key in st.byKey || x.key in s.added by {
        FoldAddedAreIndexed(st, init);
      }
    }
    FoldIndexKeys(st, xs);
  }

  /** The index after a pass holds the keys it held and the keys met. */
  lemma {:induction false} FoldIndexKeys<K(!new)>(st: PassState<K>, xs: seq<Item<K>>)
    ensures forall k :: k in Fold(st, xs).byKey <==> k in st.byKey || k in KeysOf(xs)
  {
    if xs != [] {
      var init := xs[..|xs| - 1];
      FoldIndexKeys(st, init);
      assert forall k :: k in KeysOf(xs) <==> k in KeysOf(init) || k == xs[|xs| - 1].key;
    }
  }

  /** What a pass appended is in the index, and the index grew by nothing else. */
  lemma {:induction false} FoldAddedAreIndexed<K(!new)>(st: PassState<K>, xs: seq<Item<K>>)
    requires st.added == []
    ensures forall k :: k in Fold(st, xs).byKey <==> k in st.byKey || k in Fold(st, xs).added
    ensures forall k :: k in Fold(st, xs).added ==> k !in st.byKey
  {
    if xs != [] {
      FoldAddedAreIndexed(st, xs[..|xs| - 1]);
    }
  }

  /** The first-seen keys are new, occur among the keys met, and only once. */
  lemma {:induction false} FirstSeenMeaning<K(!new)>(known: set<K>, ks: seq<K>)
    ensures forall k :: k in FirstSeen(known, ks) <==> k !in known && k in ks
    ensures NoDup(FirstSeen(known, ks))
  {
    if ks != [] {
      FirstSeenMeaning(known, ks[..|ks| - 1]);
      assert forall k :: k in ks <==> k in ks[..|ks| - 1] || k == ks[|ks| - 1];
    }
  }

  /** The data of the last attachment with key `k`. */
  function LastData<K(==,!new)>(xs: seq<Item<K>>, k: K): MediaData
    requires k in KeysOf(xs)
  {
    var x := xs[|xs| - 1];
    if x.key == k then x.media.data
    else
      assert k in KeysOf(xs[..|xs| - 1]) by {
        var i :| 0 <= i < |xs| && xs[i].key == k;
        assert i < |xs| - 1;
        assert KeysOf(xs[..|xs| - 1])[i] == k;
      }
      LastData(xs[..|xs| - 1], k)
  }

  /** After a pass, every key met holds the data of its last attachment. */
  lemma {:induction false} FoldLastDataWins<K(!new)>(st: PassState<K>, xs: seq<Item<K>>, k: K)
    requires k in KeysOf(xs)
    ensures k in Fold(st, xs).byKey && Fold(st, xs).byKey[k].data == LastData(xs, k)
  {
    var x := xs[|xs| - 1];
    var init := xs[..|xs| - 1];
    if x.key != k {
      assert k in KeysOf(init) by {
        var i :| 0 <= i < |xs| && xs[i].key == k;
        assert i < |xs| - 1;
        assert KeysOf(init)[i] == k;
      }
      FoldLastDataWins(st, init, k);
    }
  }

  /** Within the attachments, one key always comes with the same data. */
  ghost predicate Consistent<K(!new)>(xs: seq<Item<K>>) {
    forall i, j :: 0 <= i < |xs| && 0 <= j < |xs| && xs[i].key == xs[j].key ==> xs[i].media.data == xs[j].media.data
  }

  /** Every attachment's key is indexed with that attachment's data. */
  ghost predicate Reflects<K(!new)>(byKey: map<K, Media>, xs: seq<Item<K>>) {
    forall i :: 0 <= i < |xs| ==> xs[i].key in byKey && byKey[xs[i].key].data == xs[i].media.data
  }

  /** Attachments the index already reflects change nothing. */
  lemma {:induction false} FoldOverReflected<K(!new)>(st: PassState<K>, xs: seq<Item<K>>)
    requires Reflects(st.byKey, xs)
    ensures Fold(st, xs) == st
  {
    if xs != [] {
      var init := xs[..|xs| - 1];
      assert Reflects(st.byKey, init) by {
        forall i | 0 <= i < |init| ensures init[i].key in st.byKey && st.byKey[init[i].key].data == init[i].media.data {
          assert init[i] == xs[i];
        }
      }
      FoldOverReflected(st, init);
    }
  }

  /** After a pass over consistent attachments, the index reflects all of them. */
  lemma FoldReflects<K(!new)>(st: PassState<K>, xs: seq<Item<K>>)
    requires Consistent(xs)
    ensures Reflects(Fold(st, xs).byKey, xs)
  {
    forall i | 0 <= i < |xs| ensures xs[i].key in Fold(st, xs).byKey && Fold(st, xs).byKey[xs[i].key].data == xs[i].media.data {
      assert KeysOf(xs)[i] == xs[i].key;
      FoldLastDataWins(st, xs, xs[i].key);
      LastDataIsSomeItem(xs, xs[i].key);
    }
  }

  lemma {:induction false} LastDataIsSomeItem<K(!new)>(xs: seq<Item<K>>, k: K)
    requires k in KeysOf(xs)
    ensures exists j :: 0 <= j < |xs| && xs[j].key == k && xs[j].media.data == LastData(xs, k)
  {
    var x := xs[|xs| - 1];
    var init := xs[..|xs| - 1];
    if x.key != k {
      assert k in KeysOf(init) by {
        var i :| 0 <= i < |xs| && xs[i].key == k;
        assert i < |xs| - 1;
        assert KeysOf(init)[i] == k;
      }
      LastDataIsSomeItem(init, k);
      var j :| 0 <= j < |init| && init[j].key == k && init[j].media.data == LastData(init, k);
      assert xs[j] == init[j];
    }
  }

  /**
   * A second pass over the same children adds nothing, changes nothing and so
   * notifies nobody, as long as one key never comes with two different data.
   */
  lemma RepeatPassIsQuiet<K(!new)>(keyOf: SerializedMedia -> K, serializer: PostId -> Option<SerializedPost>,
                             byKey: map<K, Media>, posts: seq<PostId>)
    requires Consistent(Items(keyOf, serializer, posts))
    ensures var first := Pass(keyOf, serializer, byKey, posts);
            var second := Pass(keyOf, serializer, first.byKey, posts);
            second.added == [] && !second.changed && second.byKey == first.byKey
  {
    var xs := Items(keyOf, serializer, posts);
    var first := Pass(keyOf, serializer, byKey, posts);
    FoldReflects(PassState(byKey, [], false), xs);
    FoldOverReflected(PassState(first.byKey, [], false), xs);
  }

  /**
   * When two attachments share a key but not their data, every pass over
   * them reports a change, so listeners are called on each pass even though
   * nothing in the thread moved.
   */
  lemma ClashingKeysAlwaysChange<K(!new)>(keyOf: SerializedMedia -> K, serializer: PostId -> Option<SerializedPost>,
                                          byKey: map<K, Media>, posts: seq<PostId>, i: nat, j: nat)
    requires var xs := Items(keyOf, serializer, posts);
             i < j < |xs| && xs[i].key == xs[j].key && xs[i].media.data != xs[j].media.data
    ensures Pass(keyOf, serializer, byKey, posts).changed
  {
    ClashChanges(PassState(byKey, [], false), Items(keyOf, serializer, posts), i, j);
  }

  /** Two attachments with one key and different data force the change flag. */
  lemma ClashChanges<K(!new)>(st: PassState<K>, xs: seq<Item<K>>, i: nat, j: nat)
    requires i < j < |xs| && xs[i].key == xs[j].key && xs[i].media.data != xs[j].media.data
    ensures Fold(st, xs).changed
  {
    var k := xs[i].key;
    var head := xs[..i + 1];
    var middle := xs[i + 1..j];
    var tail := xs[j..];
    assert xs == head + middle + tail;
    FoldSplit(st, head + middle, tail);
    FoldSplit(st, head, middle);
    var si := Fold(st, head);
    assert KeysOf(head)[i] == k;
    FoldLastDataWins(st, head, k);
    KeyDataChangesOnlyWithFlag(si, middle, k);
    var sj := Fold(si, middle);
    assert tail[0] == xs[j];
    ChangeAtFirst(sj, tail);
  }

  /** An attachment whose known key holds other data sets the flag, and nothing clears it. */
  lemma ChangeAtFirst<K(!new)>(st: PassState<K>, xs: seq<Item<K>>)
    requires xs != [] && xs[0].key in st.byKey
    requires st.byKey[xs[0].key].data != xs[0].media.data || st.changed
    ensures Fold(st, xs).changed
  {
    FoldSplit(st, [xs[0]], xs[1..]);
    assert [xs[0]] + xs[1..] == xs;
    FoldSnoc(st, [], xs[0]);
  }

  /** Folding over a concatenation folds over each part in turn. */
  lemma {:induction false} FoldSplit<K(!new)>(st: PassState<K>, xs: seq<Item<K>>, ys: seq<Item<K>>)
    ensures Fold(st, xs + ys) == Fold(Fold(st, xs), ys)
  {
    if ys != [] {
      var init := ys[..|ys| - 1];
      FoldSplit(st, xs, init);
      assert (xs + ys)[..|xs + ys| - 1] == xs + init;
      assert (xs + ys)[|xs + ys| - 1] == ys[|ys| - 1];
    } else {
      assert xs + ys == xs;
    }
  }

  /** A known key's data only changes together with the change flag. */
  lemma {:induction false} KeyDataChangesOnlyWithFlag<K(!new)>(st: PassState<K>, xs: seq<Item<K>>, k: K)
    requires k in st.byKey
    ensures k in Fold(st, xs).byKey
    ensures Fold(st, xs).byKey[k].data == st.byKey[k].data || Fold(st, xs).changed
  {
    if xs != [] {
      KeyDataChangesOnlyWithFlag(st, xs[..|xs| - 1], k);
    }
  }

  /**
   * With one key for every attachment (what reading an undeclared property
   * yields), the list never grows past one entry.
   */
  lemma ConstantKeyKeepsOneEntry<K(!new)>(keyOf: SerializedMedia -> K, serializer: PostId -> Option<SerializedPost>,
                                          c: K, keys: seq<K>, byKey: map<K, Media>, posts: seq<PostId>)
    requires forall m :: keyOf(m) == c
    requires Indexed(keys, byKey) && forall k :: k in keys ==> k == c
    ensures |keys + Pass(keyOf, serializer, byKey, posts).added| <= 1
  {
    var xs := Items(keyOf, serializer, posts);
    var st := Pass(keyOf, serializer, byKey, posts);
    PassKeepsIndexed(keyOf, serializer, keys, byKey, posts);
    ItemKeysAre(keyOf, serializer, posts, c);
    assert forall k :: k in KeysOf(xs) ==> k == c by {
      forall k | k in KeysOf(xs) ensures k == c {
        var i :| 0 <= i < |xs| && KeysOf(xs)[i] == k;
        assert xs[i] in xs;
      }
    }
    FoldAddsFirstSeen(PassState(byKey, [], false), xs);
    FirstSeenMeaning(byKey.Keys, KeysOf(xs));
    var all := keys + st.added;
    assert forall k :: k in all ==> k == c;
    OneValueRepeats(all, c);
  }

  /** Two or more copies of one value are not duplicate-free. */
  lemma OneValueRepeats<T>(s: seq<T>, c: T)
    requires forall x :: x in s ==> x == c
    ensures |s| >= 2 ==> !NoDup(s)
  {
    if |s| >= 2 {
      assert s[0] in s && s[1] in s;
    }
  }

  /** With a constant key function, every key met is that constant. */
  lemma {:induction false} ItemKeysAre<K(!new)>(keyOf: SerializedMedia -> K, serializer: PostId -> Option<SerializedPost>,
                                                posts: seq<PostId>, c: K)
    requires forall m :: keyOf(m) == c
    ensures forall x :: x in Items(keyOf, serializer, posts) ==> x.key == c
  {
    if posts != [] {
      ItemKeysAre(keyOf, serializer, posts[..|posts| - 1], c);
      var last := posts[|posts| - 1];
      if serializer(last).Some? {
        MediaItemKeysAre(keyOf, serializer(last).value.media, serializer(last).value.replies, last, c);
      }
    }
  }

  lemma {:induction false} MediaItemKeysAre<K(!new)>(keyOf: SerializedMedia -> K, ms: seq<SerializedMedia>,
                                                     replies: Option<int>, post: PostId, c: K)
    requires forall m :: keyOf(m) == c
    ensures forall x :: x in MediaItems(keyOf, ms, replies, post) ==> x.key == c
  {
    if ms != [] {
      MediaItemKeysAre(keyOf, ms[..|ms| - 1], replies, post, c);
    }
  }

  lemma ItemsSnoc<K(!new)>(keyOf: SerializedMedia -> K, serializer: PostId -> Option<SerializedPost>, posts: seq<PostId>, i: nat)
    requires i < |posts|
    ensures Items(keyOf, serializer, posts[..i + 1]) == Items(keyOf, serializer, posts[..i]) + PostItems(keyOf, serializer, posts[i])
  {
    assert posts[..i + 1][..i] == posts[..i];
  }

  /** src/lib/mediaWatcher.ts: a watcher over one thread container. */
  class MediaWatcher<K(==,!new)> {
    /** The identity key of an attachment (the source reads `mediaItem.id`). */
    const keyOf: SerializedMedia -> K
    /** The site's post serializer, applied to a child element. */
    const serializer: PostId -> Option<SerializedPost>
    var listeners: set<ListenerId>
    /** `mediaByID`. */
    var byKey: map<K, Media>
    /** `media`, as keys into `byKey`. */
    var keys: seq<K>

    ghost predicate Valid()
      reads this
    {
      Indexed(keys, byKey)
    }

    /** The media list as the records it holds. */
    function MediaList(): (r: seq<Media>)
      reads this
      requires Valid()
      ensures |r| == |keys|
    {
      MediaOf(byKey, keys)
    }

    /** The constructor runs a first pass over the container's current children. */
    constructor(keyOf: SerializedMedia -> K, serializer: PostId -> Option<SerializedPost>, children: seq<PostId>)
      ensures Valid()
      ensures this.keyOf == keyOf && this.serializer == serializer && listeners == {}
      ensures var st := Pass(keyOf, serializer, map[], children);
              byKey == st.byKey && keys == st.added
    {
      this.keyOf := keyOf;
      this.serializer := serializer;
      listeners := {};
      byKey := map[];
      keys := [];
      new;
      var _, _, _ := Serialize(children);
    }

    /** `destroy`: the listeners are dropped (disconnecting the observer is not modelled). */
    method Destroy()
      modifies this
      ensures listeners == {} && byKey == old(byKey) && keys == old(keys)
    {
      listeners := {};
    }

    /** `subscribe`. */
    method Subscribe(l: ListenerId)
      modifies this
      ensures listeners == old(listeners) + {l} && byKey == old(byKey) && keys == old(keys)
    {
      listeners := listeners + {l};
    }

    /** `unsubscribe`, also what the function `subscribe` returns does. */
    method Unsubscribe(l: ListenerId)
      modifies this
      ensures listeners == old(listeners) - {l} && byKey == old(byKey) && keys == old(keys)
    {
      listeners := listeners - {l};
    }

    /**
     * The body of the inner loop of `serialize` for one attachment: a known
     * key whose snapshot differs is overwritten and flags a change, an
     * unknown key is stored and appended to the added keys.
     */
    method Absorb(key: K, item: Media, added: seq<K>, hasNewMedia: bool, hasChanges: bool)
      returns (added': seq<K>, hasNewMedia': bool, hasChanges': bool)
      modifies this
      ensures PassState(byKey, added', hasChanges') == Step(PassState(old(byKey), added, hasChanges), Item(key, item))
      ensures hasNewMedia' == (hasNewMedia || key !in old(byKey))
      ensures keys == old(keys) && listeners == old(listeners)
    {
      added', hasNewMedia', hasChanges' := added, hasNewMedia, hasChanges;
      if key in byKey {
        if byKey[key].data != item.data {
          byKey := byKey[key := item];
          hasChanges' := true;
        }
      } else {
        byKey := byKey[key := item];
        added' := added + [key];
        hasNewMedia' := true;
      }
    }

    /** The inner loop of `serialize`: the media entries of one post, in order. */
    method SerializePost(post: PostId, added: seq<K>, hasNewMedia: bool, hasChanges: bool)
      returns (added': seq<K>, hasNewMedia': bool, hasChanges': bool)
      requires hasNewMedia <==> added != []
      modifies this
      ensures PassState(byKey, added', hasChanges') == Fold(PassState(old(byKey), added, hasChanges), PostItems(keyOf, serializer, post))
      ensures hasNewMedia' <==> added' != []
      ensures keys == old(keys) && listeners == old(listeners)
    {
      ghost var st := PassState(byKey, added, hasChanges);
      added', hasNewMedia', hasChanges' := added, hasNewMedia, hasChanges;
      var serialized := serializer(post);
      if serialized.None? {
        return;
      }
      var ms := serialized.value.media;
      var j := 0;
      while j < |ms|
        invariant 0 <= j <= |ms|
        invariant PassState(byKey, added', hasChanges') == Fold(st, MediaItems(keyOf, ms[..j], serialized.value.replies, post))
        invariant hasNewMedia' <==> added' != []
        invariant keys == old(keys) && listeners == old(listeners)
      {
        var item := MakeMedia(ms[j], serialized.value.replies, post);
        var key := keyOf(ms[j]);
        MediaItemsSnoc(keyOf, ms, serialized.value.replies, post, j);
        FoldSnoc(st, MediaItems(keyOf, ms[..j], serialized.value.replies, post), Item(key, item));
        added', hasNewMedia', hasChanges' := Absorb(key, item, added', hasNewMedia', hasChanges');
        j := j + 1;
      }
      assert ms[..|ms|] == ms;
    }

    /**
     * The outer loop of `serialize`: the posts in child order. The index is
     * updated as the pass goes; the list is left to the caller.
     */
    method SerializePosts(children: seq<PostId>) returns (added: seq<K>, hasNewMedia: bool, hasChanges: bool)
      modifies this
      ensures PassState(byKey, added, hasChanges) == Pass(keyOf, serializer, old(byKey), children)
      ensures hasNewMedia <==> added != []
      ensures keys == old(keys) && listeners == old(listeners)
    {
      ghost var start := PassState(byKey, [], false);
      added, hasNewMedia, hasChanges := [], false, false;
      var i := 0;
      while i < |children|
        invariant 0 <= i <= |children|
        invariant PassState(byKey, added, hasChanges) == Fold(start, Items(keyOf, serializer, children[..i]))
        invariant hasNewMedia <==> added != []
        invariant keys == old(keys) && listeners == old(listeners)
      {
        ItemsSnoc(keyOf, serializer, children, i);
        FoldSplit(start, Items(keyOf, serializer, children[..i]), PostItems(keyOf, serializer, children[i]));
        added, hasNewMedia, hasChanges := SerializePost(children[i], added, hasNewMedia, hasChanges);
        i := i + 1;
      }
      assert children[..|children|] == children;
    }

    /**
     * `serialize`: one pass over the children. Returns the listeners called
     * and the two arguments each is called with, `addedMedia` and `media`
     * (no listener is called when `notified` is empty).
     */
    method Serialize(children: seq<PostId>) returns (notified: set<ListenerId>, addedMedia: seq<Media>, allMedia: seq<Media>)
      requires Valid()
      modifies this
      ensures Valid()
      ensures var st := Pass(keyOf, serializer, old(byKey), children);
              byKey == st.byKey && keys == old(keys) + st.added
              && notified == (if st.added != [] || st.changed then old(listeners) else {})
      ensures listeners == old(listeners)
      ensures addedMedia == MediaOf(byKey, keys[|old(keys)|..]) && allMedia == MediaList()
    {
      var added, hasNewMedia, hasChanges := SerializePosts(children);
      PassKeepsIndexed(keyOf, serializer, old(keys), old(byKey), children);
      if hasNewMedia {
        keys := keys + added;
      }
      assert keys[|old(keys)|..] == added;
      notified := if hasNewMedia || hasChanges then listeners else {};
      addedMedia := MediaOf(byKey, added);
      allMedia := MediaOf(byKey, keys);
    }
  }
}
