/** What a run hands to its two delivery channels: one Firebase write per new item,
    keyed `<type id>_<week>`, and Telegram messages of at most twenty items each. The
    transport itself is outside the model; these are the requests it would carry. */
module Dispatch {
  import opened Options
  import opened Text
  import opened Classify

  /** Items per Telegram message. */
  const ChunkSize: nat := 20

  /** `[xs[i:i + 20] for i in range(0, len(xs), 20)]` */
  function Chunks<T>(xs: seq<T>): (cs: seq<seq<T>>)
    ensures |cs| == (|xs| + ChunkSize - 1) / ChunkSize
    ensures forall k :: 0 <= k < |cs| ==> 1 <= |cs[k]| <= ChunkSize
    ensures forall k :: 0 <= k < |cs| - 1 ==> |cs[k]| == ChunkSize
  {
    var n := (|xs| + ChunkSize - 1) / ChunkSize;
    seq(n, k requires 0 <= k < n => xs[ChunkSize * k..Min(ChunkSize * k + ChunkSize, |xs|)])
  }

  function Min(a: nat, b: nat): nat {
    if a <= b then a else b
  }

  /** Concatenation of a sequence of sequences. */
  function Flatten<T>(css: seq<seq<T>>): (xs: seq<T>)
    decreases |css|
  {
    if css == [] then [] else css[0] + Flatten(css[1..])
  }

  /** Splitting off the first chunk leaves the chunks of the rest. */
  lemma ChunksStep<T>(xs: seq<T>)
    requires xs != []
    ensures var m := Min(ChunkSize, |xs|);
      Chunks(xs) == [xs[..m]] + Chunks(xs[m..])
  {
    var m := Min(ChunkSize, |xs|);
    var cs, rest := Chunks(xs), Chunks(xs[m..]);
    assert |cs| == 1 + |rest|;
    forall k | 1 <= k < |cs| ensures cs[k] == rest[k - 1] {
      assert xs[m..][ChunkSize * (k - 1)..Min(ChunkSize * (k - 1) + ChunkSize, |xs| - m)]
        == xs[ChunkSize * k..Min(ChunkSize * k + ChunkSize, |xs|)];
    }
  }

  /** The chunks put back together are the items, in order: nothing lost, repeated or
      moved. */
  lemma {:induction false} FlattenChunks<T>(xs: seq<T>)
    ensures Flatten(Chunks(xs)) == xs
    decreases |xs|
  {
    if xs != [] {
      var m := Min(ChunkSize, |xs|);
      ChunksStep(xs);
      FlattenChunks(xs[m..]);
      assert Chunks(xs)[1..] == Chunks(xs[m..]);
      assert xs[..m] + xs[m..] == xs;
    }
  }

  /** The grade label a message shows: "1ث" for the first grade, "2ث" for anything else. */
  function GradeShort(rawGrade: string): (g: string)
    ensures rawGrade == GradeOne ==> g == "1ث"
    ensures rawGrade != GradeOne ==> g == "2ث"
  {
    if rawGrade == GradeOne then "1ث" else "2ث"
  }

  /** One bullet line of a message. */
  datatype Line = Line(gradeShort: string, name: string, week: string)

  /** A Telegram message: the total count of new items, the "part i of N" header when
      there is more than one message, and the bullet lines. */
  datatype Message = Message(total: nat, part: Option<(nat, nat)>, lines: seq<Line>)

  function LineOf(it: Item): Line {
    Line(GradeShort(it.rawGrade), it.name, it.week)
  }

  function LinesOf(items: seq<Item>): (ls: seq<Line>)
    ensures |ls| == |items|
    ensures forall i :: 0 <= i < |items| ==> ls[i] == LineOf(items[i])
  {
    seq(|items|, i requires 0 <= i < |items| => LineOf(items[i]))
  }

  /** `send_telegram_alert`: nothing without a bot token or without new items; otherwise
      one message per chunk of the first-grade items followed by the second-grade ones.
      Every message states the total, and numbers itself only when there are several. */
  function TelegramMessages(tokenSet: bool, g1: seq<Item>, g2: seq<Item>): (ms: seq<Message>)
    ensures !tokenSet || g1 + g2 == [] ==> ms == []
    ensures tokenSet ==> |ms| == (|g1| + |g2| + ChunkSize - 1) / ChunkSize
    ensures forall k :: 0 <= k < |ms| ==> ms[k].total == |g1| + |g2|
    ensures forall k :: 0 <= k < |ms| ==> 1 <= |ms[k].lines| <= ChunkSize
    ensures forall k :: 0 <= k < |ms| ==> (ms[k].part.Some? <==> |ms| > 1)
    ensures forall k :: 0 <= k < |ms| && ms[k].part.Some? ==> ms[k].part.value == (k + 1, |ms|)
  {
    var all := g1 + g2;
    if !tokenSet || all == [] then []
    else
      var cs := Chunks(all);
      seq(|cs|, k requires 0 <= k < |cs| =>
        Message(|all|, if |cs| > 1 then Some((k + 1, |cs|)) else None, LinesOf(cs[k])))
  }

  /** Message k carries the lines of chunk k of the items, first grade first: its
      line j announces item `20 * k + j`. */
  lemma TelegramMessagesCarryChunks(tokenSet: bool, g1: seq<Item>, g2: seq<Item>)
    requires tokenSet && g1 + g2 != []
    ensures var ms := TelegramMessages(tokenSet, g1, g2);
      forall k :: 0 <= k < |ms| ==> ms[k].lines == LinesOf(Chunks(g1 + g2)[k])
    ensures var ms := TelegramMessages(tokenSet, g1, g2);
      forall k, j :: 0 <= k < |ms| && 0 <= j < |ms[k].lines| ==>
        ChunkSize * k + j < |g1 + g2| && ms[k].lines[j] == LineOf((g1 + g2)[ChunkSize * k + j])
  {
  }

  /** Lines of a concatenation are the concatenated lines. */
  lemma LinesOfAppend(a: seq<Item>, b: seq<Item>)
    ensures LinesOf(a + b) == LinesOf(a) + LinesOf(b)
  {
  }

  /** The bullet lines of all messages, read in order. */
  function AllLines(ms: seq<Message>): (ls: seq<Line>)
    decreases |ms|
  {
    if ms == [] then [] else ms[0].lines + AllLines(ms[1..])
  }

  /** Bullet lines of chunk messages, read in order, are the lines of the items. */
  lemma {:induction false} AllLinesOfChunks(cs: seq<seq<Item>>, ms: seq<Message>)
    requires |ms| == |cs|
    requires forall k :: 0 <= k < |cs| ==> ms[k].lines == LinesOf(cs[k])
    ensures AllLines(ms) == LinesOf(Flatten(cs))
    decreases |cs|
  {
    if cs != [] {
      AllLinesOfChunks(cs[1..], ms[1..]);
      LinesOfAppend(cs[0], Flatten(cs[1..]));
    }
  }

  /** Every new item is announced exactly once, in order: first-grade items, then
      second-grade ones. */
  lemma TelegramMessagesCoverItems(g1: seq<Item>, g2: seq<Item>)
    ensures AllLines(TelegramMessages(true, g1, g2)) == LinesOf(g1 + g2)
  {
    var all := g1 + g2;
    if all != [] {
      FlattenChunks(all);
      AllLinesOfChunks(Chunks(all), TelegramMessages(true, g1, g2));
    }
  }

  /** The Firebase key `f"{type}_{week}"`. */
  function FirebaseKey(it: Item): string {
    it.typeId + "_" + it.week
  }

  /** One Firebase write: the key under the node path, and the stored item fields. */
  datatype Upload = Upload(path: string, key: string, name: string, week: string, url: Option<string>, typeId: string)

  /** `upload_batch_firebase`: nothing when there are no items or no database URL;
      otherwise one write per item, in order, under `nodePath`. */
  function Uploads(items: seq<Item>, nodePath: string, urlSet: bool): (us: seq<Upload>)
    ensures items == [] || !urlSet ==> us == []
    ensures urlSet ==> |us| == |items|
    ensures forall i :: 0 <= i < |us| ==> us[i].path == nodePath && us[i].key == FirebaseKey(items[i])
    ensures forall i :: 0 <= i < |us| ==>
      us[i].name == items[i].name && us[i].week == items[i].week
      && us[i].url == items[i].url && us[i].typeId == items[i].typeId
  {
    if items == [] || !urlSet then []
    else
      seq(|items|, i requires 0 <= i < |items| =>
        var it := items[i];
        Upload(nodePath, FirebaseKey(it), it.name, it.week, it.url, it.typeId))
  }

  /** Node paths of the two grades. */
  const PathG1: string := "books"
  const PathG2: string := "taq_it"

  /** Type ids and weeks are digit strings, so a key determines both: two items share a
      key, and the later write replaces the earlier, exactly when they agree on type id
      and week. */
  lemma FirebaseKeyInjective(a: Item, b: Item)
    requires AllDigits(a.typeId) && AllDigits(b.typeId) && AllDigits(a.week) && AllDigits(b.week)
    ensures FirebaseKey(a) == FirebaseKey(b) <==> a.typeId == b.typeId && a.week == b.week
  {
    if FirebaseKey(a) == FirebaseKey(b) {
      var ka, kb := FirebaseKey(a), FirebaseKey(b);
      assert |a.typeId| == |b.typeId| by {
        FirstUnderscore(a.typeId, a.week);
        FirstUnderscore(b.typeId, b.week);
      }
      assert a.typeId == ka[..|a.typeId|];
      assert b.typeId == kb[..|b.typeId|];
      assert a.week == ka[|a.typeId| + 1..];
      assert b.week == kb[|b.typeId| + 1..];
    }
  }

  /** In `t + "_" + w` with `t` all digits, the first '_' stands right after `t`. */
  lemma FirstUnderscore(t: string, w: string)
    requires AllDigits(t)
    ensures var k := t + "_" + w;
      k[|t|] == '_' && forall i :: 0 <= i < |t| ==> k[i] != '_'
  {
  }
}
