/** The text window of the `/all-questions` handler: the text of at most the
    first three pages, each non-empty page followed by a line break, cut to
    `CHUNK_SIZE` characters, and the short preview of it sent back. */
module PageWindow {
  import opened Seqs

  const CHUNK_SIZE: nat := 3000
  const PAGE_LIMIT: nat := 3
  const PREVIEW_SIZE: nat := 200

  /** What one page adds: its text and a line break, or nothing when the page
      has no text (`extract_text()` gave None or the empty string). */
  function Contribution(page: Option<string>): (r: string)
    ensures r == [] <==> page.None? || page.value == []
    ensures r != [] ==> r[..|r| - 1] == page.value && r[|r| - 1] == '\n'
  {
    if page.Some? && page.value != [] then page.value + "\n" else ""
  }

  /** The contributions of `pages`, one after the other: empty exactly when no
      page has text, and otherwise ending with a line break. */
  function Joined(pages: seq<Option<string>>): (r: string)
    ensures r == [] <==> forall k :: 0 <= k < |pages| ==> pages[k].None? || pages[k].value == []
    ensures r == [] || r[|r| - 1] == '\n'
    decreases |pages|
  {
    if pages == [] then "" else Joined(pages[..|pages| - 1]) + Contribution(pages[|pages| - 1])
  }

  /** Python's `pages[:PAGE_LIMIT]`. */
  function Window(pages: seq<Option<string>>): (w: seq<Option<string>>)
    ensures |w| <= PAGE_LIMIT && |w| <= |pages| && w == pages[..|w|]
    ensures |w| == PAGE_LIMIT || w == pages
  {
    if |pages| <= PAGE_LIMIT then pages else pages[..PAGE_LIMIT]
  }

  /** Python's `s[:n]`. */
  function Prefix(s: string, n: nat): (r: string)
    ensures |r| <= n && r <= s
    ensures |s| <= n ==> r == s
    ensures |s| > n ==> |r| == n
  {
    if |s| <= n then s else s[..n]
  }

  /** `Joined` distributes over concatenation of page lists. */
  lemma {:induction false} JoinedAppend(a: seq<Option<string>>, b: seq<Option<string>>)
    ensures Joined(a + b) == Joined(a) + Joined(b)
    decreases |b|
  {
    if b == [] {
      assert a + b == a;
    } else {
      var init := b[..|b| - 1];
      var last := b[|b| - 1];
      assert (a + b)[..|a + b| - 1] == a + init && (a + b)[|a + b| - 1] == last;
      JoinedStep(a + b);
      JoinedAppend(a, init);
      JoinedStep(b);
      Associate(Joined(a), Joined(init), Contribution(last));
    }
  }

  lemma JoinedStep(pages: seq<Option<string>>)
    requires pages != []
    ensures Joined(pages) == Joined(pages[..|pages| - 1]) + Contribution(pages[|pages| - 1])
  {
  }

  lemma JoinedExtend(pages: seq<Option<string>>, n: nat)
    requires n < |pages|
    ensures Joined(pages[..n + 1]) == Joined(pages[..n]) + Contribution(pages[n])
  {
    assert pages[..n + 1][..n] == pages[..n];
  }

  lemma Associate(x: string, y: string, z: string)
    ensures (x + y) + z == x + (y + z)
  {
  }

  /** The text of a leading run of pages is a prefix of the text of all of them. */
  lemma {:induction false} JoinedPrefix(pages: seq<Option<string>>, m: nat)
    requires m <= |pages|
    ensures Joined(pages[..m]) <= Joined(pages)
    decreases |pages| - m
  {
    if m == |pages| {
      assert pages[..m] == pages;
    } else {
      JoinedExtend(pages, m);
      PrefixOfConcat(Joined(pages[..m]), Contribution(pages[m]));
      JoinedPrefix(pages, m + 1);
      PrefixTransitive(Joined(pages[..m]), Joined(pages[..m + 1]), Joined(pages));
    }
  }

  lemma PrefixOfConcat(x: string, y: string)
    ensures x <= x + y
  {
    assert (x + y)[..|x|] == x;
  }

  lemma PrefixTransitive(x: string, y: string, z: string)
    requires x <= y && y <= z
    ensures x <= z
  {
    assert z[..|x|] == y[..|x|];
  }

  /** Once the text is longer than `n`, later pages do not change its first `n`
      characters: stopping early gives the same cut. */
  lemma PrefixOfLongerText(s: string, t: string, n: nat)
    requires s <= t && |s| > n
    ensures Prefix(s, n) == Prefix(t, n)
  {
    assert s[..n] == t[..n];
  }

  /** No leading run of fewer than `read` pages has text longer than `CHUNK_SIZE`. */
  ghost predicate StayedWithin(window: seq<Option<string>>, read: nat)
    requires read <= |window|
  {
    forall m :: 0 <= m < read ==> |Joined(window[..m])| <= CHUNK_SIZE
  }

  lemma StayedWithinExtend(window: seq<Option<string>>, read: nat)
    requires read < |window| && StayedWithin(window, read) && |Joined(window[..read])| <= CHUNK_SIZE
    ensures StayedWithin(window, read + 1)
  {
  }

  /** The accumulation loop of app.py:115-122. It reads the first three pages
      at most and stops right after a page that takes the text past `CHUNK_SIZE`. */
  method AccumulatePages(pages: seq<Option<string>>) returns (fullText: string, read: nat)
    ensures read <= |Window(pages)|
    ensures fullText == Joined(Window(pages)[..read])
    ensures read == |Window(pages)| || |fullText| > CHUNK_SIZE
    ensures StayedWithin(Window(pages), read)
  {
    var window := Window(pages);
    fullText := "";
    read := 0;
    while read < |window|
      invariant read <= |window|
      invariant fullText == Joined(window[..read])
      invariant StayedWithin(window, read)
      invariant |fullText| <= CHUNK_SIZE
    {
      var page := window[read];
      ghost var before := fullText;
      if page.Some? && page.value != [] {
        fullText := fullText + (page.value + "\n");
      } else {
        assert fullText == before + "";
      }
      JoinedExtend(window, read);
      StayedWithinExtend(window, read);
      read := read + 1;
      if |fullText| > CHUNK_SIZE {
        break;
      }
    }
  }

  /** The chunk of app.py:124 and the preview of app.py:137. */
  method BuildChunk(pages: seq<Option<string>>) returns (chunk: string, preview: string)
    ensures chunk == Prefix(Joined(Window(pages)), CHUNK_SIZE)
    ensures preview == Preview(chunk)
  {
    var fullText, read := AccumulatePages(pages);
    chunk := Prefix(fullText, CHUNK_SIZE);
    JoinedPrefix(Window(pages), read);
    if read < |Window(pages)| {
      PrefixOfLongerText(fullText, Joined(Window(pages)), CHUNK_SIZE);
    } else {
      assert Window(pages)[..read] == Window(pages);
    }
    preview := Preview(chunk);
  }

  /** `chunk[:200] + "..." if len(chunk) > 200 else chunk`: the chunk itself when
      it is short, otherwise its first 200 characters and an ellipsis. */
  function Preview(chunk: string): (p: string)
    ensures |chunk| <= PREVIEW_SIZE ==> p == chunk
    ensures |chunk| > PREVIEW_SIZE ==>
              |p| == PREVIEW_SIZE + 3 && p[..PREVIEW_SIZE] == chunk[..PREVIEW_SIZE] && p[PREVIEW_SIZE..] == "..."
  {
    if |chunk| > PREVIEW_SIZE then chunk[..PREVIEW_SIZE] + "..." else chunk
  }
}
