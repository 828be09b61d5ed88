/** The glyph cache of `agg_font_cache_manager.h`: a two-level table per font, a bounded pool of
    fonts replaced first-in first-out, and a manager that follows the engine's change stamp. */
module FontCache {
  import opened Basics

  /** What the engine delivers for one glyph. */
  datatype Rendered = Rendered(glyphIndex: int, data: seq<int>, dataType: int,
                               bounds: (int, int, int, int), advanceX: real, advanceY: real)

  type Renderer = (string, nat) -> Option<Rendered>

  /** A cached glyph; its address is what the manager hands out and remembers. */
  class GlyphCache {
    const record: Rendered

    constructor (record: Rendered)
      ensures this.record == record
    {
      this.record := record;
    }
  }

  // ----- The two-level table -----

  /** 256 rows, each absent or of 256 entries. */
  type Table = seq<seq<GlyphCache?>>

  predicate WellFormed(table: Table) {
    |table| == 256 && forall m :: 0 <= m < 256 ==> table[m] == [] || |table[m]| == 256
  }

  const EMPTY_TABLE: Table := seq(256, _ => [])

  function Lookup(table: Table, code: nat): GlyphCache?
    requires WellFormed(table)
  {
    var row := table[code / 256 % 256];
    if row == [] then null else row[code % 256]
  }

  const KEYS := 65536

  /** Two codes share a slot exactly when they agree modulo 65536. */
  lemma SlotsAreKeys(c: nat, d: nat)
    ensures c / 256 % 256 == d / 256 % 256 && c % 256 == d % 256 <==> c % KEYS == d % KEYS
  {
    assert c % KEYS == (c / 256 % 256) * 256 + c % 256;
    assert d % KEYS == (d / 256 % 256) * 256 + d % 256;
  }

  lemma SlotOf(table: Table, code: nat)
    requires WellFormed(table)
    ensures Lookup(table, code) == Lookup(table, code % KEYS)
  {
    SlotsAreKeys(code, code % KEYS);
  }

  function Stored(table: Table, code: nat, glyph: GlyphCache?): Table
    requires WellFormed(table)
  {
    var msb := code / 256 % 256;
    var row := if table[msb] == [] then seq(256, _ => null) else table[msb];
    table[msb := row[code % 256 := glyph]]
  }

  /** Storing a glyph changes what is found for the codes that share its slot, and for no others. */
  lemma StoredLookup(table: Table, code: nat, glyph: GlyphCache?, c: nat)
    requires WellFormed(table)
    ensures WellFormed(Stored(table, code, glyph))
    ensures Lookup(Stored(table, code, glyph), c) == if c % KEYS == code % KEYS then glyph else Lookup(table, c)
  {
    SlotsAreKeys(c, code);
    var msb := code / 256 % 256;
    var row := if table[msb] == [] then seq(256, _ => null) else table[msb];
    assert |row| == 256;
  }

  /** What the engine was asked to render: a code, under the signature it had then. */
  datatype Request = Request(signature: string, code: nat)

  /** `source` says of every filled slot, and of no other, what was rendered to fill it. */
  ghost predicate SourcesMatch(table: Table, source: map<nat, Request>)
    requires WellFormed(table)
  {
    && (forall k: nat :: k < KEYS ==> (k in source <==> Lookup(table, k) != null))
    && (forall k :: k in source ==> k < KEYS && source[k].code % KEYS == k)
  }

  lemma SmallKey(k: nat)
    requires k < KEYS
    ensures k % KEYS == k
  {
  }

  lemma StoredSources(table: Table, source: map<nat, Request>, request: Request, glyph: GlyphCache)
    requires WellFormed(table) && SourcesMatch(table, source)
    ensures var code := request.code;
            && WellFormed(Stored(table, code, glyph))
            && SourcesMatch(Stored(table, code, glyph), source[code % KEYS := request])
            && forall c: nat ::
                 Lookup(Stored(table, code, glyph), c) == if c % KEYS == code % KEYS then glyph else Lookup(table, c)
  {
    var code, key := request.code, request.code % KEYS;
    StoredLookup(table, code, glyph, code);
    hide Stored, Lookup, WellFormed;
    forall c: nat ensures Lookup(Stored(table, code, glyph), c) == if c % KEYS == key then glyph else Lookup(table, c) {
      StoredLookup(table, code, glyph, c);
    }
    var next := Stored(table, code, glyph);
    forall k: nat | k < KEYS ensures k in source[key := request] <==> Lookup(next, k) != null {
      SmallKey(k);
    }
  }

  function Render(render: Renderer, request: Request): Option<Rendered> {
    render(request.signature, request.code)
  }

  /** Every glyph is what the engine made of the request that filled its slot. */
  ghost predicate TableAgrees(table: Table, source: map<nat, Request>, render: Renderer)
    requires WellFormed(table) && SourcesMatch(table, source)
  {
    forall k :: k in source ==> Render(render, source[k]) == Some(Lookup(table, k).record)
  }

  ghost predicate TableOwns(table: Table, glyph: GlyphCache)
    requires WellFormed(table)
  {
    exists c: nat :: c < KEYS && Lookup(table, c) == glyph
  }

  lemma StoredAgreesAt(table: Table, source: map<nat, Request>, request: Request, glyph: GlyphCache, render: Renderer,
                       k: nat)
    requires WellFormed(table) && SourcesMatch(table, source) && TableAgrees(table, source, render)
    requires Render(render, request) == Some(glyph.record) && (k == request.code % KEYS || k in source)
    ensures WellFormed(Stored(table, request.code, glyph)) && Lookup(Stored(table, request.code, glyph), k) != null
    ensures Render(render, source[request.code % KEYS := request][k])
            == Some(Lookup(Stored(table, request.code, glyph), k).record)
  {
    StoredLookup(table, request.code, glyph, k);
    hide Stored, Lookup, WellFormed, Render;
    var key := request.code % KEYS;
    SmallKey(k);
    if k != key {
      assert source[key := request][k] == source[k];
    }
  }

  lemma StoredAgrees(table: Table, source: map<nat, Request>, request: Request, glyph: GlyphCache, render: Renderer)
    requires WellFormed(table) && SourcesMatch(table, source) && TableAgrees(table, source, render)
    requires Render(render, request) == Some(glyph.record)
    ensures var next := Stored(table, request.code, glyph);
            WellFormed(next) && SourcesMatch(next, source[request.code % KEYS := request])
            && TableAgrees(next, source[request.code % KEYS := request], render)
  {
    StoredSources(table, source, request, glyph);
    hide Stored, Lookup, WellFormed;
    var next, now := Stored(table, request.code, glyph), source[request.code % KEYS := request];
    forall k | k in now ensures Render(render, now[k]) == Some(Lookup(next, k).record) {
      StoredAgreesAt(table, source, request, glyph, render, k);
    }
  }

  lemma StoredOwns(table: Table, code: nat, glyph: GlyphCache, other: GlyphCache?)
    requires WellFormed(table) && Lookup(table, code) == null
    ensures WellFormed(Stored(table, code, glyph)) && TableOwns(Stored(table, code, glyph), glyph)
    ensures other != null && TableOwns(table, other) ==> TableOwns(Stored(table, code, glyph), other)
  {
    StoredLookup(table, code, glyph, code % KEYS);
    if other != null && TableOwns(table, other) {
      var c: nat :| c < KEYS && Lookup(table, c) == other;
      StoredLookup(table, code, glyph, c);
      SlotOf(table, code);
    }
  }

  // ----- The cache on values -----

  /** What a pool keeps for a signature. */
  datatype Slot<T> = Slot(signature: string, content: T)

  /** The fonts of a pool, oldest first, and the place of the current one. */
  datatype Pool<T> = Pool(fonts: seq<Slot<T>>, at: nat)

  function IndexOf<T>(fonts: seq<Slot<T>>, signature: string): (i: nat)
    ensures i <= |fonts| && (i < |fonts| ==> fonts[i].signature == signature)
    ensures forall k :: 0 <= k < i ==> fonts[k].signature != signature
  {
    if fonts == [] || fonts[0].signature == signature then 0 else IndexOf(fonts[1..], signature) + 1
  }

  /** Makes the font of a signature current, with `blank` content if it is new or reset; a full pool gives up its oldest
      font for a new one. */
  function Select<T>(pool: Pool<T>, maxFonts: nat, signature: string, reset: bool, blank: T): Pool<T> {
    var i := IndexOf(pool.fonts, signature);
    if i < |pool.fonts| then Pool(if reset then pool.fonts[i := Slot(signature, blank)] else pool.fonts, i)
    else
      var kept := if |pool.fonts| >= maxFonts && pool.fonts != [] then pool.fonts[1..] else pool.fonts;
      Pool(kept + [Slot(signature, blank)], |kept|)
  }

  // The choice is at the one place where the signature stands, or behind all.
  lemma SelectAt<T>(pool: Pool<T>, maxFonts: nat, signature: string, reset: bool, blank: T, i: nat)
    requires i <= |pool.fonts| && (i < |pool.fonts| ==> pool.fonts[i].signature == signature)
    requires forall k :: 0 <= k < |pool.fonts| && k != i ==> pool.fonts[k].signature != signature
    ensures IndexOf(pool.fonts, signature) == i
    ensures i < |pool.fonts| ==>
              Select(pool, maxFonts, signature, reset, blank)
              == Pool(if reset then pool.fonts[i := Slot(signature, blank)] else pool.fonts, i)
    ensures i == |pool.fonts| ==>
              var kept := if |pool.fonts| >= maxFonts && pool.fonts != [] then pool.fonts[1..] else pool.fonts;
              Select(pool, maxFonts, signature, reset, blank) == Pool(kept + [Slot(signature, blank)], |kept|)
  {
  }

  type Source = map<nat, Request>

  /** The fonts with what filled their slots, and the change stamp last seen. */
  datatype Cache = Cache(pool: Pool<Source>, stamp: int)

  const NEW_CACHE := Cache(Pool([], 0), -1)

  function Synced(cache: Cache, maxFonts: nat, stamp: int, signature: string): Cache {
    if cache.stamp == stamp then cache else Cache(Select(cache.pool, maxFonts, signature, false, map[]), stamp)
  }

  function Emptied(cache: Cache, maxFonts: nat, stamp: int, signature: string): Cache {
    Cache(Select(cache.pool, maxFonts, signature, true, map[]), stamp)
  }

  function SourceOf(cache: Cache): Source {
    if cache.pool.at < |cache.pool.fonts| then cache.pool.fonts[cache.pool.at].content else map[]
  }

  function WithSource(cache: Cache, source: Source): Cache {
    var pool := cache.pool;
    if pool.at < |pool.fonts| then
      cache.(pool := pool.(fonts := pool.fonts[pool.at := pool.fonts[pool.at].(content := source)]))
    else cache
  }

  /** What a font answers whose slots have been filled like this. */
  function Answer(render: Renderer, source: Source, request: Request): Option<Rendered> {
    Render(render, if request.code % KEYS in source then source[request.code % KEYS] else request)
  }

  function NextSource(render: Renderer, source: Source, request: Request): Source {
    if request.code % KEYS in source || Render(render, request) == None then source
    else source[request.code % KEYS := request]
  }

  // ----- A font -----

  class Font {
    const signature: string
    var table: Table
    /** For every filled slot, what was rendered to fill it. */
    ghost var source: Source

    ghost predicate Valid()
      reads this
    {
      WellFormed(table) && SourcesMatch(table, source)
    }

    ghost function Find(code: nat): GlyphCache?
      reads this
      requires WellFormed(table)
    {
      Lookup(table, code)
    }

    ghost predicate Agrees(render: Renderer)
      reads this
      requires Valid()
    {
      TableAgrees(table, source, render)
    }

    /** What a filled slot tells about the code asked for. */
    lemma Found(code: nat, render: Renderer)
      requires Valid() && Agrees(render)
      ensures (Find(code) != null) <==> code % KEYS in source
      ensures Find(code) != null ==>
                Owns(Find(code)) && Render(render, source[code % KEYS]) == Some(Find(code).record)
    {
      SlotOf(table, code);
    }

    lemma EmptyIsSound(render: Renderer)
      requires Valid() && source == map[]
      ensures Agrees(render)
    {
    }

    ghost predicate Owns(glyph: GlyphCache)
      reads this
      requires Valid()
    {
      TableOwns(table, glyph)
    }

    constructor (signature: string)
      ensures Valid() && this.signature == signature
      ensures source == map[] && forall c: nat :: Find(c) == null
    {
      this.signature := signature;
      table := EMPTY_TABLE;
      source := map[];
    }

    method FindGlyph(code: nat) returns (glyph: GlyphCache?)
      requires Valid()
      ensures glyph == Find(code)
    {
      var msb := code / 256 % 256;
      if table[msb] != [] {
        return table[msb][code % 256];
      }
      return null;
    }

    /** Fills an empty slot, and never overwrites a filled one. */
    method CacheGlyph(code: nat, record: Rendered, ghost request: Request) returns (glyph: GlyphCache?)
      requires Valid() && request.code == code
      modifies this
      ensures Valid()
      ensures old(Find(code)) != null ==>
                glyph == null && source == old(source) && forall c: nat :: Find(c) == old(Find(c))
      ensures old(Find(code)) == null ==>
                && glyph != null && fresh(glyph) && glyph.record == record
                && source == old(source)[code % KEYS := request] && table == Stored(old(table), code, glyph)
                && forall c: nat :: Find(c) == if c % KEYS == code % KEYS then glyph else old(Find(c))
    {
      hide SourcesMatch;
      ghost var before := table;
      var msb := code / 256 % 256;
      if table[msb] == [] {
        table := table[msb := seq(256, _ => null)];
      }
      var lsb := code % 256;
      if table[msb][lsb] != null {
        return null;
      }
      glyph := new GlyphCache(record);
      table := table[msb := table[msb][lsb := glyph]];
      source := source[code % KEYS := request];
      assert table == Stored(before, code, glyph);
      StoredSources(before, old(source), request, glyph);
    }

    /** Caching the engine's own rendering keeps the font in agreement with it, and keeps what it owned. */
    method CacheRendered(code: nat, record: Rendered, ghost request: Request, ghost render: Renderer,
                         ghost prev: GlyphCache?)
      returns (glyph: GlyphCache)
      requires Valid() && Agrees(render) && Find(code) == null
      requires request.code == code && Render(render, request) == Some(record)
      requires prev != null ==> Owns(prev)
      modifies this
      ensures Valid() && Agrees(render) && glyph.record == record && Owns(glyph)
      ensures prev != null ==> Owns(prev)
      ensures source == old(source)[code % KEYS := request]
    {
      hide SourcesMatch, TableAgrees, TableOwns, Lookup, Stored;
      glyph := CacheGlyph(code, record, request);
      StoredAgrees(old(table), old(source), request, glyph, render);
      StoredOwns(old(table), code, glyph, prev);
    }
  }

  // ----- The pool -----

  class FontPool {
    const maxFonts: nat
    var fonts: seq<Font>
    var cur: Font?
    /** The place of the current font. */
    ghost var at: nat

    ghost function FontSet(): set<Font>
      reads this
    {
      set f | f in fonts
    }

    /** At most maxFonts fonts, oldest first, no signature twice; the current font is one of them. */
    ghost predicate Valid()
      reads this, fonts
    {
      && 1 <= maxFonts && |fonts| <= maxFonts
      && (forall i :: 0 <= i < |fonts| ==> fonts[i].Valid())
      && (forall i, j :: 0 <= i < j < |fonts| ==> fonts[i].signature != fonts[j].signature)
      && (cur == null ==> fonts == [] && at == 0)
      && (cur != null ==> at < |fonts| && fonts[at] == cur)
    }

    ghost function View(): (view: Pool<Source>)
      reads this, fonts
      ensures |view.fonts| == |fonts| && view.at == at
      ensures forall i :: 0 <= i < |fonts| ==> view.fonts[i] == Slot(fonts[i].signature, fonts[i].source)
    {
      Pool(seq(|fonts|, i requires 0 <= i < |fonts| reads this, fonts => Slot(fonts[i].signature, fonts[i].source)), at)
    }

    constructor (maxFonts: nat)
      requires maxFonts >= 1
      ensures Valid() && this.maxFonts == maxFonts && fonts == [] && cur == null && View() == Pool([], 0)
    {
      this.maxFonts := maxFonts;
      fonts, cur, at := [], null, 0;
    }

    method FindFont(signature: string) returns (idx: int)
      ensures -1 <= idx < |fonts|
      ensures idx >= 0 ==> fonts[idx].signature == signature
      ensures idx == -1 ==> forall i :: 0 <= i < |fonts| ==> fonts[i].signature != signature
    {
      var i := 0;
      while i < |fonts|
        invariant 0 <= i <= |fonts|
        invariant forall k :: 0 <= k < i ==> fonts[k].signature != signature
      {
        if fonts[i].signature == signature { return i; }
        i := i + 1;
      }
      return -1;
    }

    /** Adds an empty font at the end and makes it current; a full pool gives up its oldest font. */
    method AddFont(signature: string)
      requires Valid() && forall i :: 0 <= i < |fonts| ==> fonts[i].signature != signature
      modifies this
      ensures Valid() && cur != null && fresh(cur) && cur.signature == signature && cur.source == map[]
      ensures fonts == (if |old(fonts)| == maxFonts then old(fonts)[1..] else old(fonts)) + [cur]
      ensures var before := old(View().fonts);
              View() == Pool((if |before| == maxFonts then before[1..] else before) + [Slot(signature, map[])],
                             |fonts| - 1)
    {
      hide Font.Valid;
      ghost var view := View().fonts;
      ghost var kept := if |fonts| >= maxFonts then view[1..] else view;
      if |fonts| >= maxFonts {
        fonts := fonts[1..];
      }
      var font := new Font(signature);
      fonts := fonts + [font];
      cur := font;
      at := |fonts| - 1;
      assert View().fonts == kept + [Slot(signature, map[])];
    }

    /** Makes a font current, in place of an emptied one of its signature if it is reset. */
    method UseFont(idx: nat, reset: bool)
      requires Valid() && idx < |fonts|
      modifies this
      ensures Valid() && cur != null && cur.signature == old(fonts)[idx].signature
      ensures fonts == old(fonts)[idx := cur] && at == idx
      ensures if reset then fresh(cur) && cur.source == map[] else cur == old(fonts)[idx]
      ensures var before := old(View().fonts);
              View() == Pool(if reset then before[idx := Slot(before[idx].signature, map[])] else before, idx)
    {
      hide Font.Valid;
      ghost var view := View().fonts;
      if reset {
        var font := new Font(fonts[idx].signature);
        fonts := fonts[idx := font];
      }
      cur := fonts[idx];
      at := idx;
      assert View().fonts == if reset then view[idx := Slot(view[idx].signature, map[])] else view;
    }

    /** Makes the font of `signature` current. A font that is not there is added at the end, and when
        the pool is full exactly the oldest font goes; no other font is touched. */
    method SelectFont(signature: string, reset: bool)
      requires Valid()
      modifies this
      ensures Valid() && cur != null && cur.signature == signature
      ensures View() == Select(old(View()), maxFonts, signature, reset, map[])
      ensures forall i :: 0 <= i < |old(fonts)| && old(fonts)[i].signature == signature ==>
                fonts == old(fonts)[i := cur] && (reset ==> fresh(cur)) && (!reset ==> cur == old(fonts)[i])
      ensures (forall i :: 0 <= i < |old(fonts)| ==> old(fonts)[i].signature != signature) ==>
                && fresh(cur)
                && fonts == (if |old(fonts)| == maxFonts then old(fonts)[1..] else old(fonts)) + [cur]
      ensures fresh(cur) ==> cur.source == map[]
      ensures !fresh(cur) ==> cur in old(fonts)
      ensures forall f :: f in fonts ==> f in old(fonts) || f == cur
    {
      hide Font.Valid, Select, IndexOf, View;
      ghost var view := View();
      var idx := FindFont(signature);
      SelectAt(view, maxFonts, signature, reset, map[], if idx >= 0 then idx else |fonts|);
      if idx >= 0 {
        UseFont(idx, reset);
      } else {
        AddFont(signature);
      }
    }
  }

  // ----- The engine and the manager -----

  /** The font engine. What it renders depends on signature and code only; its signature and its change stamp may change
      in any way. */
  class Engine {
    const render: Renderer
    var stamp: int
    var signature: string

    constructor (render: Renderer, stamp: int, signature: string)
      ensures this.render == render && this.stamp == stamp && this.signature == signature
    {
      this.render, this.stamp, this.signature := render, stamp, signature;
    }
  }

  class Manager {
    const engine: Engine
    const pool: FontPool
    var changeStamp: int
    var prev: GlyphCache?
    var last: GlyphCache?

    /** Every cached glyph is the engine's, and the remembered glyphs belong to the current font. */
    ghost predicate Valid()
      reads this, pool, pool.fonts
    {
      && pool.Valid()
      && (forall i :: 0 <= i < |pool.fonts| ==> pool.fonts[i].Agrees(engine.render))
      && (pool.cur == null ==> changeStamp == -1 && prev == null && last == null)
      && (prev != null ==> pool.cur != null && pool.cur.Owns(prev))
      && (last != null ==> pool.cur != null && pool.cur.Owns(last))
    }

    ghost function View(): Cache
      reads this, pool, pool.fonts
    {
      Cache(pool.View(), changeStamp)
    }

    constructor (engine: Engine, maxFonts: nat)
      requires maxFonts >= 1
      ensures Valid() && this.engine == engine && fresh(pool) && pool.cur == null && pool.fonts == []
      ensures pool.maxFonts == maxFonts && View() == NEW_CACHE
    {
      this.engine := engine;
      pool := new FontPool(maxFonts);
      changeStamp, prev, last := -1, null, null;
    }

    method Synchronize()
      requires Valid()
      requires pool.cur == null ==> engine.stamp != -1
      modifies this, pool
      ensures Valid() && pool.cur != null && changeStamp == engine.stamp
      ensures View() == Synced(old(View()), pool.maxFonts, engine.stamp, engine.signature)
      ensures fresh(pool.FontSet() - old(pool.FontSet()))
      ensures old(changeStamp) == engine.stamp ==> pool.cur == old(pool.cur) && prev == old(prev) && last == old(last)
      ensures old(changeStamp) != engine.stamp ==> prev == null && last == null
    {
      hide Font.Valid, Font.Agrees, Font.Find, Font.Owns, Select;
      if changeStamp != engine.stamp {
        pool.SelectFont(engine.signature, false);
        if fresh(pool.cur) { pool.cur.EmptyIsSound(engine.render); }
        changeStamp := engine.stamp;
        prev, last := null, null;
      }
    }

    method ResetCache()
      requires Valid()
      modifies this, pool
      ensures Valid() && pool.cur != null && fresh(pool.cur) && changeStamp == engine.stamp
      ensures View() == Emptied(old(View()), pool.maxFonts, engine.stamp, engine.signature)
      ensures fresh(pool.FontSet() - old(pool.FontSet()))
      ensures prev == null && last == null
    {
      hide Font.Valid, Font.Agrees, Font.Find, Font.Owns, Select;
      pool.SelectFont(engine.signature, true);
      pool.cur.EmptyIsSound(engine.render);
      changeStamp := engine.stamp;
      prev, last := null, null;
    }

    method Reset()
      requires Valid()
      modifies this`prev, this`last
      ensures Valid() && View() == old(View()) && prev == null && last == null
    {
      prev, last := null, null;
    }

    /** The glyph for `code` is the engine's for what filled its slot in the font of the present signature: that
        request, if the slot is filled, and otherwise the present one, which then fills it. */
    method Glyph(code: nat) returns (glyph: GlyphCache?)
      requires Valid()
      requires pool.cur == null ==> engine.stamp != -1
      modifies this, pool, pool.FontSet()
      ensures Valid() && pool.cur != null && changeStamp == engine.stamp
      ensures fresh(pool.FontSet() - old(pool.FontSet()))
      ensures var synced := Synced(old(View()), pool.maxFonts, engine.stamp, engine.signature);
              var request, source := Request(engine.signature, code), SourceOf(synced);
              && (if glyph == null then None else Some(glyph.record)) == Answer(engine.render, source, request)
              && View() == WithSource(synced, NextSource(engine.render, source, request))
      ensures glyph != null ==> last == glyph && prev == if old(changeStamp) == engine.stamp then old(last) else null
      ensures glyph == null && old(changeStamp) == engine.stamp ==> last == old(last) && prev == old(prev)
    {
      Synchronize();
      hide Synced, WithSource, NextSource, Answer, SourceOf, Valid;
      glyph := GlyphInCurrentFont(code);
    }

    /** The lookup proper, once manager and engine agree on the font. */
    method GlyphInCurrentFont(code: nat) returns (glyph: GlyphCache?)
      requires Valid() && pool.cur != null
      modifies this`prev, this`last, pool.cur
      ensures Valid()
      ensures var request, source := Request(engine.signature, code), SourceOf(old(View()));
              && (if glyph == null then None else Some(glyph.record)) == Answer(engine.render, source, request)
              && View() == WithSource(old(View()), NextSource(engine.render, source, request))
      ensures glyph != null ==> last == glyph && prev == old(last)
      ensures glyph == null ==> last == old(last) && prev == old(prev)
    {
      glyph := pool.cur.FindGlyph(code);
      pool.cur.Found(code, engine.render);
      ghost var source := SourceOf(View());
      assert source == pool.cur.source;
      assert View() == WithSource(View(), source);
      hide Font.Valid, Font.Agrees, Font.Find, Font.Owns;
      if glyph != null {
        prev := last;
        last := glyph;
        return;
      }
      var rendered := engine.render(engine.signature, code);
      match rendered
      case None =>
      case Some(record) =>
        prev := last;
        AddGlyph(code, record);
        glyph := last;
    }

    /** Caches what the engine rendered and remembers it as the last glyph. */
    method AddGlyph(code: nat, record: Rendered)
      requires Valid() && pool.cur != null && pool.cur.Find(code) == null
      requires Render(engine.render, Request(engine.signature, code)) == Some(record)
      modifies this`last, pool.cur
      ensures Valid() && last != null && last.record == record
      ensures View()
              == WithSource(old(View()), SourceOf(old(View()))[code % KEYS := Request(engine.signature, code)])
    {
      hide Font.Valid, Font.Agrees, Font.Find, Font.Owns;
      var cur := pool.cur;
      ghost var request, view := Request(engine.signature, code), View();
      label L:
      last := cur.CacheRendered(code, record, request, engine.render, prev);
      forall i | 0 <= i < |pool.fonts|
        ensures pool.fonts[i].Valid() && pool.fonts[i].Agrees(engine.render)
        ensures i != pool.at ==> pool.fonts[i].source == old@L(pool.fonts[i].source)
      {
        if pool.fonts[i] != cur { assert unchanged@L(pool.fonts[i]); }
      }
      assert View().pool.fonts == WithSource(view, SourceOf(view)[code % KEYS := request]).pool.fonts;
    }
  }

  // ----- Runs -----

  /** What a client can do, and what the engine can do behind the manager's back. */
  datatype Event = GetGlyph(code: nat) | ChangeEngine(stamp: int, signature: string) | ResetTheCache | ResetPair

  /** What the client would get by asking the engine directly. */
  function Direct(render: Renderer, signature: string, events: seq<Event>): seq<Option<Rendered>>
    decreases events
  {
    if events == [] then []
    else match events[0]
      case GetGlyph(code) => [Render(render, Request(signature, code))] + Direct(render, signature, events[1..])
      case ChangeEngine(_, next) => Direct(render, next, events[1..])
      case _ => Direct(render, signature, events[1..])
  }

  /** What a run gets from a cache. */
  function Cached(render: Renderer, maxFonts: nat, cache: Cache, stamp: int, signature: string, events: seq<Event>)
    : seq<Option<Rendered>>
    decreases events
  {
    if events == [] then []
    else match events[0]
      case GetGlyph(code) =>
        var synced, request := Synced(cache, maxFonts, stamp, signature), Request(signature, code);
        [Answer(render, SourceOf(synced), request)]
        + Cached(render, maxFonts, WithSource(synced, NextSource(render, SourceOf(synced), request)), stamp, signature,
                 events[1..])
      case ChangeEngine(nextStamp, nextSignature) =>
        Cached(render, maxFonts, cache, nextStamp, nextSignature, events[1..])
      case ResetTheCache =>
        Cached(render, maxFonts, Emptied(cache, maxFonts, stamp, signature), stamp, signature, events[1..])
      case ResetPair => Cached(render, maxFonts, cache, stamp, signature, events[1..])
  }

  // One event, on values.
  function CacheAfter(render: Renderer, maxFonts: nat, cache: Cache, stamp: int, signature: string,
                      event: Event): Cache {
    match event
    case GetGlyph(code) =>
      var synced := Synced(cache, maxFonts, stamp, signature);
      WithSource(synced, NextSource(render, SourceOf(synced), Request(signature, code)))
    case ResetTheCache => Emptied(cache, maxFonts, stamp, signature)
    case _ => cache
  }

  function AnswersTo(render: Renderer, maxFonts: nat, cache: Cache, stamp: int, signature: string, event: Event)
    : seq<Option<Rendered>>
  {
    if event.GetGlyph? then
      [Answer(render, SourceOf(Synced(cache, maxFonts, stamp, signature)), Request(signature, event.code))]
    else []
  }

  lemma CachedStep(render: Renderer, maxFonts: nat, cache: Cache, stamp: int, signature: string, rest: seq<Event>,
                   out: seq<Option<Rendered>>)
    requires rest != []
    ensures var change := rest[0].ChangeEngine?;
            out + Cached(render, maxFonts, cache, stamp, signature, rest)
            == out + AnswersTo(render, maxFonts, cache, stamp, signature, rest[0])
               + Cached(render, maxFonts, CacheAfter(render, maxFonts, cache, stamp, signature, rest[0]),
                        if change then rest[0].stamp else stamp, if change then rest[0].signature else signature,
                        rest[1..])
  {
    hide Answer, NextSource, Synced, Emptied, SourceOf, WithSource;
  }

  lemma RunEnds(render: Renderer, maxFonts: nat, cache: Cache, stamp: int, signature: string, rest: seq<Event>,
                out: seq<Option<Rendered>>)
    requires rest == []
    ensures out + Cached(render, maxFonts, cache, stamp, signature, rest) == out
  {
  }

  /** One event of a run; a glyph request has one answer. */
  method Turn(manager: Manager, event: Event) returns (answer: seq<Option<Rendered>>)
    requires manager.Valid() && manager.engine.stamp != -1
    requires event.ChangeEngine? ==> event.stamp != -1
    modifies manager, manager.pool, manager.pool.FontSet(), manager.engine
    ensures manager.Valid() && fresh(manager.pool.FontSet() - old(manager.pool.FontSet()))
    ensures manager.engine.stamp == if event.ChangeEngine? then event.stamp else old(manager.engine.stamp)
    ensures manager.engine.signature == if event.ChangeEngine? then event.signature else old(manager.engine.signature)
    ensures answer == AnswersTo(manager.engine.render, manager.pool.maxFonts, old(manager.View()),
                                old(manager.engine.stamp), old(manager.engine.signature), event)
    ensures manager.View() == CacheAfter(manager.engine.render, manager.pool.maxFonts, old(manager.View()),
                                         old(manager.engine.stamp), old(manager.engine.signature), event)
    ensures event.ResetPair? ==> manager.prev == null && manager.last == null
  {
    hide Answer, NextSource, Synced, Emptied, SourceOf, WithSource, Font.Valid, Font.Agrees, Font.Find, Font.Owns;
    answer := [];
    match event {
      case GetGlyph(code) =>
        var glyph := manager.Glyph(code);
        answer := [if glyph == null then None else Some(glyph.record)];
      case ChangeEngine(stamp, signature) =>
        manager.engine.stamp, manager.engine.signature := stamp, signature;
      case ResetTheCache =>
        manager.ResetCache();
      case ResetPair =>
        manager.Reset();
    }
  }

  /** Every run of glyph requests, engine changes and resets, from a new manager of any capacity, gets the answers of
      the cache on values. */
  method Serve(engine: Engine, maxFonts: nat, events: seq<Event>) returns (out: seq<Option<Rendered>>)
    requires maxFonts >= 1 && engine.stamp != -1
    requires forall e :: e in events && e.ChangeEngine? ==> e.stamp != -1
    modifies engine
    ensures out == Cached(engine.render, maxFonts, NEW_CACHE, old(engine.stamp), old(engine.signature), events)
  {
    var manager := new Manager(engine, maxFonts);
    out := [];
    var i := 0;
    ghost var goal := Cached(engine.render, maxFonts, NEW_CACHE, engine.stamp, engine.signature, events);
    assert events[0..] == events;
    hide Manager.Valid, Manager.View, Cached, AnswersTo, CacheAfter;
    while i < |events|
      invariant 0 <= i <= |events| && engine.stamp != -1
      invariant manager.Valid() && manager.engine == engine && manager.pool.maxFonts == maxFonts
      invariant fresh(manager) && fresh(manager.pool) && fresh(manager.pool.FontSet())
      invariant out + Cached(engine.render, maxFonts, manager.View(), engine.stamp, engine.signature, events[i..])
             == goal
    {
      assert events[i..][0] == events[i] && events[i..][1..] == events[i + 1..];
      CachedStep(engine.render, maxFonts, manager.View(), engine.stamp, engine.signature, events[i..], out);
      var answer := Turn(manager, events[i]);
      out := out + answer;
      i := i + 1;
    }
    RunEnds(engine.render, maxFonts, manager.View(), engine.stamp, engine.signature, events[i..], out);
  }

  // ----- Exactly when the cache is transparent -----

  /** A glyph request of a run, with the life of the font that it went to: the number of the event that made the font.
      */
  datatype Asked = Asked(life: nat, request: Request)

  function LifeOf(pool: Pool<nat>): nat {
    if pool.at < |pool.fonts| then pool.fonts[pool.at].content else 0
  }

  function LivesAfter(maxFonts: nat, pool: Pool<nat>, seen: int, stamp: int, signature: string, event: Event, now: nat)
    : Pool<nat>
  {
    if event.ResetTheCache? then Select(pool, maxFonts, signature, true, now)
    else if event.GetGlyph? && seen != stamp then Select(pool, maxFonts, signature, false, now)
    else pool
  }

  /** The requests of a run. Which fonts live does not depend on any glyph: the pool is followed with the number of the
      event that made each font. */
  function Log(maxFonts: nat, pool: Pool<nat>, seen: int, stamp: int, signature: string, events: seq<Event>, now: nat)
    : set<Asked>
    decreases events
  {
    if events == [] then {}
    else
      var event := events[0];
      var lives := LivesAfter(maxFonts, pool, seen, stamp, signature, event, now);
      (if event.GetGlyph? then {Asked(LifeOf(lives), Request(signature, event.code))} else {})
      + Log(maxFonts, lives, if event.GetGlyph? || event.ResetTheCache? then stamp else seen,
            if event.ChangeEngine? then event.stamp else stamp,
            if event.ChangeEngine? then event.signature else signature, events[1..], now + 1)
  }

  /** Requests to the same font in the same life that share a slot are the same. */
  ghost predicate NoneCollide(asked: set<Asked>) {
    forall a, b :: a in asked && b in asked && a.life == b.life && a.request.code % KEYS == b.request.code % KEYS ==>
                     a.request == b.request
  }

  // The cache and the lives follow each other.
  ghost predicate Matches(cache: Cache, pool: Pool<nat>) {
    && |cache.pool.fonts| == |pool.fonts| && cache.pool.at == pool.at
    && forall i :: 0 <= i < |pool.fonts| ==> cache.pool.fonts[i].signature == pool.fonts[i].signature
  }

  lemma {:induction false} IndexMatches<S, T>(a: seq<Slot<S>>, b: seq<Slot<T>>, signature: string)
    requires |a| == |b| && forall i :: 0 <= i < |a| ==> a[i].signature == b[i].signature
    ensures IndexOf(a, signature) == IndexOf(b, signature)
    decreases |a|
  {
    if a != [] {
      IndexMatches(a[1..], b[1..], signature);
    }
  }

  // Where the content of each selected font comes from: font i of the new pool was font `from` of the old one, or is
  // blank.
  function From(size: nat, i: nat, index: nat, full: bool, reset: bool): Option<nat> {
    if index < size then if reset && i == index then None else Some(i)
    else
      var j := if full then i + 1 else i;
      if j < size then Some(j) else None
  }

  lemma SelectFrom<T>(pool: Pool<T>, maxFonts: nat, signature: string, reset: bool, blank: T, i: nat)
    requires i < |Select(pool, maxFonts, signature, reset, blank).fonts|
    ensures var size, after := |pool.fonts|, Select(pool, maxFonts, signature, reset, blank);
            var from := From(size, i, IndexOf(pool.fonts, signature), size >= maxFonts && size > 0, reset);
            && (from.Some? ==> from.value < size && after.fonts[i] == pool.fonts[from.value])
            && (from == None ==> after.fonts[i] == Slot(signature, blank))
  {
    hide IndexOf;
  }

  lemma SelectSize<T>(pool: Pool<T>, maxFonts: nat, signature: string, reset: bool, blank: T)
    ensures var size, after := |pool.fonts|, Select(pool, maxFonts, signature, reset, blank);
            && after.at < |after.fonts|
            && |after.fonts| == (if IndexOf(pool.fonts, signature) < size || (size >= maxFonts && size > 0) then size
                                 else size + 1)
            && after.at == (if IndexOf(pool.fonts, signature) < size then IndexOf(pool.fonts, signature)
                            else |after.fonts| - 1)
            && after.fonts[after.at].signature == signature
  {
    hide IndexOf;
  }

  // What the slots hold was asked for, in this life.
  ghost predicate Recorded(cache: Cache, pool: Pool<nat>, past: set<Asked>)
    requires Matches(cache, pool)
  {
    forall i, k :: 0 <= i < |pool.fonts| && k in cache.pool.fonts[i].content ==>
                     && cache.pool.fonts[i].content[k].code % KEYS == k
                     && Asked(pool.fonts[i].content, cache.pool.fonts[i].content[k]) in past
  }

  lemma SelectMatches(cache: Cache, pool: Pool<nat>, maxFonts: nat, signature: string, reset: bool, now: nat,
                      stamp: int)
    requires Matches(cache, pool)
    ensures Matches(Cache(Select(cache.pool, maxFonts, signature, reset, map[]), stamp),
                    Select(pool, maxFonts, signature, reset, now))
  {
    IndexMatches(cache.pool.fonts, pool.fonts, signature);
    SelectSize(cache.pool, maxFonts, signature, reset, map[]);
    SelectSize(pool, maxFonts, signature, reset, now);
    var a, b := Select(cache.pool, maxFonts, signature, reset, map[]), Select(pool, maxFonts, signature, reset, now);
    hide IndexOf, Select, From;
    forall i | 0 <= i < |b.fonts| ensures a.fonts[i].signature == b.fonts[i].signature {
      SelectFrom(cache.pool, maxFonts, signature, reset, map[], i);
      SelectFrom(pool, maxFonts, signature, reset, now, i);
    }
  }

  lemma SelectRecorded(cache: Cache, pool: Pool<nat>, past: set<Asked>, maxFonts: nat, signature: string, reset: bool,
                       now: nat, stamp: int)
    requires Matches(cache, pool) && Recorded(cache, pool, past)
    ensures var after, lives := Cache(Select(cache.pool, maxFonts, signature, reset, map[]), stamp),
                                Select(pool, maxFonts, signature, reset, now);
            Matches(after, lives) && Recorded(after, lives, past)
  {
    SelectMatches(cache, pool, maxFonts, signature, reset, now, stamp);
    IndexMatches(cache.pool.fonts, pool.fonts, signature);
    var a, b := Select(cache.pool, maxFonts, signature, reset, map[]), Select(pool, maxFonts, signature, reset, now);
    hide IndexOf, Select, From;
    forall i, k | 0 <= i < |b.fonts| && k in a.fonts[i].content
      ensures a.fonts[i].content[k].code % KEYS == k && Asked(b.fonts[i].content, a.fonts[i].content[k]) in past
    {
      SelectFrom(cache.pool, maxFonts, signature, reset, map[], i);
      SelectFrom(pool, maxFonts, signature, reset, now, i);
    }
  }

  lemma FillRecorded(render: Renderer, cache: Cache, pool: Pool<nat>, past: set<Asked>, request: Request)
    requires Matches(cache, pool) && Recorded(cache, pool, past)
    ensures var after := WithSource(cache, NextSource(render, SourceOf(cache), request));
            Matches(after, pool) && Recorded(after, pool, past + {Asked(LifeOf(pool), request)})
  {
    hide Render;
  }

  lemma AnswerIsDirect(render: Renderer, cache: Cache, pool: Pool<nat>, past: set<Asked>, request: Request,
                       all: set<Asked>)
    requires Matches(cache, pool) && Recorded(cache, pool, past) && past <= all && NoneCollide(all)
    requires Asked(LifeOf(pool), request) in all
    ensures Answer(render, SourceOf(cache), request) == Render(render, request)
  {
    var key := request.code % KEYS;
    if key in SourceOf(cache) {
      assert Asked(LifeOf(pool), SourceOf(cache)[key]) in past;
    }
  }

  /** Nothing colliding is asked for: the answers are those of the engine. */
  lemma {:induction false} Transparent(render: Renderer, maxFonts: nat, cache: Cache, pool: Pool<nat>, past: set<Asked>,
                                       stamp: int, signature: string, events: seq<Event>, now: nat)
    requires Matches(cache, pool) && Recorded(cache, pool, past)
    requires NoneCollide(past + Log(maxFonts, pool, cache.stamp, stamp, signature, events, now))
    ensures Cached(render, maxFonts, cache, stamp, signature, events) == Direct(render, signature, events)
    decreases |events|
  {
    if events != [] {
      var event, rest := events[0], events[1..];
      var lives := LivesAfter(maxFonts, pool, cache.stamp, stamp, signature, event, now);
      SelectRecorded(cache, pool, past, maxFonts, signature, event.ResetTheCache?, now, stamp);
      var log := Log(maxFonts, pool, cache.stamp, stamp, signature, events, now);
      hide Select, NoneCollide, Recorded, Matches, SourceOf, WithSource, NextSource, Answer, LifeOf;
      match event {
        case GetGlyph(code) =>
          var synced, request := Synced(cache, maxFonts, stamp, signature), Request(signature, code);
          var after := WithSource(synced, NextSource(render, SourceOf(synced), request));
          var asked := Asked(LifeOf(lives), request);
          FillRecorded(render, synced, lives, past, request);
          AnswerIsDirect(render, synced, lives, past, request, past + log);
          assert past + {asked} + Log(maxFonts, lives, stamp, stamp, signature, rest, now + 1) == past + log;
          Transparent(render, maxFonts, after, lives, past + {asked}, stamp, signature, rest, now + 1);
        case ChangeEngine(nextStamp, nextSignature) =>
          assert past + Log(maxFonts, pool, cache.stamp, nextStamp, nextSignature, rest, now + 1) == past + log;
          Transparent(render, maxFonts, cache, pool, past, nextStamp, nextSignature, rest, now + 1);
        case ResetTheCache =>
          var after := Emptied(cache, maxFonts, stamp, signature);
          assert past + Log(maxFonts, lives, stamp, stamp, signature, rest, now + 1) == past + log;
          Transparent(render, maxFonts, after, lives, past, stamp, signature, rest, now + 1);
        case ResetPair =>
          assert past + Log(maxFonts, pool, cache.stamp, stamp, signature, rest, now + 1) == past + log;
          Transparent(render, maxFonts, cache, pool, past, stamp, signature, rest, now + 1);
      }
    }
  }

  // An engine that renders every code, and no two requests alike.
  function Telling(signature: string, code: nat): Option<Rendered> {
    Some(Rendered(code, seq(|signature|, i requires 0 <= i < |signature| => signature[i] as int), 0, (0, 0, 0, 0), 0.0,
                  0.0))
  }

  lemma TellsApart(a: Request, b: Request)
    requires Render(Telling, a) == Render(Telling, b)
    ensures a == b
  {
    var x, y := Telling(a.signature, a.code).value.data, Telling(b.signature, b.code).value.data;
    assert |x| == |a.signature| && |y| == |b.signature|;
    forall i | 0 <= i < |a.signature| ensures a.signature[i] == b.signature[i] {
      assert x[i] == a.signature[i] as int && y[i] == b.signature[i] as int;
    }
  }

  // No two fonts were made by one event, and every life so far began before now.
  ghost predicate Born(pool: Pool<nat>, past: set<Asked>, now: nat) {
    && (forall i :: 0 <= i < |pool.fonts| ==> pool.fonts[i].content < now)
    && (forall i, j :: 0 <= i < j < |pool.fonts| ==> pool.fonts[i].content != pool.fonts[j].content)
    && (forall a :: a in past ==> a.life < now)
  }

  predicate Holds(source: Source, request: Request) {
    request.code % KEYS in source && source[request.code % KEYS] == request
  }

  // What was asked for in the life of a font that is still there fills its slot.
  ghost predicate Kept(cache: Cache, pool: Pool<nat>, past: set<Asked>)
    requires Matches(cache, pool)
  {
    forall a, i :: a in past && 0 <= i < |pool.fonts| && pool.fonts[i].content == a.life ==>
                     Holds(cache.pool.fonts[i].content, a.request)
  }

  lemma SelectBorn(pool: Pool<nat>, past: set<Asked>, maxFonts: nat, signature: string, reset: bool, now: nat)
    requires Born(pool, past, now)
    ensures Born(Select(pool, maxFonts, signature, reset, now), past, now + 1)
  {
    var b := Select(pool, maxFonts, signature, reset, now);
    SelectSize(pool, maxFonts, signature, reset, now);
    hide IndexOf, Select;
    forall i | 0 <= i < |b.fonts| ensures b.fonts[i].content < now + 1 {
      SelectFrom(pool, maxFonts, signature, reset, now, i);
    }
    forall i, j | 0 <= i < j < |b.fonts| ensures b.fonts[i].content != b.fonts[j].content {
      SelectFrom(pool, maxFonts, signature, reset, now, i);
      SelectFrom(pool, maxFonts, signature, reset, now, j);
    }
  }

  lemma SelectKept(cache: Cache, pool: Pool<nat>, past: set<Asked>, maxFonts: nat, signature: string, reset: bool,
                   now: nat, stamp: int)
    requires Matches(cache, pool) && Kept(cache, pool, past) && Born(pool, past, now)
    ensures var after, lives := Cache(Select(cache.pool, maxFonts, signature, reset, map[]), stamp),
                                Select(pool, maxFonts, signature, reset, now);
            Matches(after, lives) && Kept(after, lives, past)
  {
    SelectMatches(cache, pool, maxFonts, signature, reset, now, stamp);
    IndexMatches(cache.pool.fonts, pool.fonts, signature);
    var a, b := Select(cache.pool, maxFonts, signature, reset, map[]), Select(pool, maxFonts, signature, reset, now);
    hide IndexOf, Select, From, Holds;
    forall p, i | p in past && 0 <= i < |b.fonts| && b.fonts[i].content == p.life
      ensures Holds(a.fonts[i].content, p.request)
    {
      SelectFrom(cache.pool, maxFonts, signature, reset, map[], i);
      SelectFrom(pool, maxFonts, signature, reset, now, i);
    }
  }

  // One request that gets the answer of the engine.
  lemma FillKept(cache: Cache, pool: Pool<nat>, past: set<Asked>, request: Request, now: nat)
    requires Matches(cache, pool) && Kept(cache, pool, past) && Born(pool, past, now) && pool.at < |pool.fonts|
    requires NoneCollide(past) && Answer(Telling, SourceOf(cache), request) == Render(Telling, request)
    ensures var after, asked := WithSource(cache, NextSource(Telling, SourceOf(cache), request)),
                                past + {Asked(LifeOf(pool), request)};
            Matches(after, pool) && Kept(after, pool, asked) && Born(pool, asked, now) && NoneCollide(asked)
  {
    var source, asked := SourceOf(cache), Asked(LifeOf(pool), request);
    if request.code % KEYS in source {
      TellsApart(source[request.code % KEYS], request);
    }
    var next := NextSource(Telling, source, request);
    assert Holds(next, request);
    assert forall r :: Holds(source, r) ==> Holds(next, r);
    forall a | a in past && a.life == asked.life && a.request.code % KEYS == request.code % KEYS
      ensures a.request == request
    {
      assert Holds(cache.pool.fonts[pool.at].content, a.request);
    }
    var after := WithSource(cache, next);
    forall a, i | a in past + {asked} && 0 <= i < |pool.fonts| && pool.fonts[i].content == a.life
      ensures Holds(after.pool.fonts[i].content, a.request)
    {
      if a in past { assert Holds(cache.pool.fonts[i].content, a.request); }
    }
  }

  lemma FillKeepsStamp(render: Renderer, cache: Cache, request: Request)
    ensures WithSource(cache, NextSource(render, SourceOf(cache), request)).stamp == cache.stamp
  {
  }

  // One request, from the selection of its font on.
  lemma RequestKept(maxFonts: nat, cache: Cache, pool: Pool<nat>, past: set<Asked>, stamp: int, signature: string,
                    code: nat, now: nat)
    requires Matches(cache, pool) && Kept(cache, pool, past) && Born(pool, past, now) && NoneCollide(past)
    requires stamp != -1 && (cache.stamp != -1 ==> pool.at < |pool.fonts|)
    requires var synced, request := Synced(cache, maxFonts, stamp, signature), Request(signature, code);
             Answer(Telling, SourceOf(synced), request) == Render(Telling, request)
    ensures var lives := LivesAfter(maxFonts, pool, cache.stamp, stamp, signature, GetGlyph(code), now);
            var after := CacheAfter(Telling, maxFonts, cache, stamp, signature, GetGlyph(code));
            var asked := past + {Asked(LifeOf(lives), Request(signature, code))};
            && Matches(after, lives) && Kept(after, lives, asked) && Born(lives, asked, now + 1) && NoneCollide(asked)
            && after.stamp == stamp && lives.at < |lives.fonts|
  {
    var synced, request := Synced(cache, maxFonts, stamp, signature), Request(signature, code);
    var lives := LivesAfter(maxFonts, pool, cache.stamp, stamp, signature, GetGlyph(code), now);
    SelectKept(cache, pool, past, maxFonts, signature, false, now, stamp);
    SelectBorn(pool, past, maxFonts, signature, false, now);
    SelectSize(pool, maxFonts, signature, false, now);
    assert Born(pool, past, now + 1);
    hide Select, NoneCollide, Kept, Matches, Born, SourceOf, WithSource, NextSource, Answer, LifeOf, Telling, Render;
    FillKept(synced, lives, past, request, now + 1);
    FillKeepsStamp(Telling, synced, request);
  }

  lemma ResetKept(maxFonts: nat, cache: Cache, pool: Pool<nat>, past: set<Asked>, stamp: int, signature: string,
                  now: nat)
    requires Matches(cache, pool) && Kept(cache, pool, past) && Born(pool, past, now)
    ensures var lives := LivesAfter(maxFonts, pool, cache.stamp, stamp, signature, ResetTheCache, now);
            var after := CacheAfter(Telling, maxFonts, cache, stamp, signature, ResetTheCache);
            && Matches(after, lives) && Kept(after, lives, past) && Born(lives, past, now + 1)
            && after.stamp == stamp && lives.at < |lives.fonts|
  {
    SelectKept(cache, pool, past, maxFonts, signature, true, now, stamp);
    SelectBorn(pool, past, maxFonts, signature, true, now);
    SelectSize(pool, maxFonts, signature, true, now);
    hide Select, Kept, Matches, Born;
  }

  // The answers to the first event and to the others.
  lemma AnswersSplit(render: Renderer, maxFonts: nat, cache: Cache, stamp: int, signature: string, events: seq<Event>)
    requires events != []
    requires Cached(render, maxFonts, cache, stamp, signature, events) == Direct(render, signature, events)
    ensures var event := events[0];
            var nextStamp := if event.ChangeEngine? then event.stamp else stamp;
            var nextSignature := if event.ChangeEngine? then event.signature else signature;
            && Cached(render, maxFonts, CacheAfter(render, maxFonts, cache, stamp, signature, event), nextStamp,
                      nextSignature, events[1..])
               == Direct(render, nextSignature, events[1..])
            && (event.GetGlyph? ==>
                  var synced, request := Synced(cache, maxFonts, stamp, signature), Request(signature, event.code);
                  Answer(render, SourceOf(synced), request) == Render(render, request))
  {
    hide Answer, Render, NextSource, Synced, Emptied, SourceOf, WithSource;
    var cached, direct := Cached(render, maxFonts, cache, stamp, signature, events), Direct(render, signature, events);
    if events[0].GetGlyph? {
      assert cached[0] == direct[0] && cached[1..] == direct[1..];
    }
  }

  // The requests of the first event and of the others.
  lemma LogSplit(maxFonts: nat, pool: Pool<nat>, seen: int, stamp: int, signature: string, events: seq<Event>, now: nat,
                 past: set<Asked>)
    requires events != []
    ensures var event := events[0];
            var lives := LivesAfter(maxFonts, pool, seen, stamp, signature, event, now);
            past + Log(maxFonts, pool, seen, stamp, signature, events, now)
            == past + (if event.GetGlyph? then {Asked(LifeOf(lives), Request(signature, event.code))} else {})
               + Log(maxFonts, lives, if event.GetGlyph? || event.ResetTheCache? then stamp else seen,
                     if event.ChangeEngine? then event.stamp else stamp,
                     if event.ChangeEngine? then event.signature else signature, events[1..], now + 1)
  {
    hide LivesAfter, LifeOf;
  }

  // Every event keeps what has been said of the requests so far.
  lemma EventKept(maxFonts: nat, cache: Cache, pool: Pool<nat>, past: set<Asked>, stamp: int, signature: string,
                  event: Event, now: nat)
    requires Matches(cache, pool) && Kept(cache, pool, past) && Born(pool, past, now) && NoneCollide(past)
    requires stamp != -1 && (cache.stamp != -1 ==> pool.at < |pool.fonts|)
    requires event.GetGlyph? ==>
               var synced, request := Synced(cache, maxFonts, stamp, signature), Request(signature, event.code);
               Answer(Telling, SourceOf(synced), request) == Render(Telling, request)
    ensures var lives := LivesAfter(maxFonts, pool, cache.stamp, stamp, signature, event, now);
            var after := CacheAfter(Telling, maxFonts, cache, stamp, signature, event);
            var asked :=
              past + if event.GetGlyph? then {Asked(LifeOf(lives), Request(signature, event.code))} else {};
            && Matches(after, lives) && Kept(after, lives, asked) && Born(lives, asked, now + 1) && NoneCollide(asked)
            && after.stamp == (if event.GetGlyph? || event.ResetTheCache? then stamp else cache.stamp)
            && (after.stamp != -1 ==> lives.at < |lives.fonts|)
  {
    assert past + {} == past && Born(pool, past, now + 1);
    hide NoneCollide, Kept, Matches, Born, Synced, Answer, LifeOf;
    if event.GetGlyph? {
      RequestKept(maxFonts, cache, pool, past, stamp, signature, event.code, now);
    } else if event.ResetTheCache? {
      ResetKept(maxFonts, cache, pool, past, stamp, signature, now);
    }
  }

  /** The answers of this engine show that nothing colliding was asked for. */
  lemma {:induction false} CollisionShows(maxFonts: nat, cache: Cache, pool: Pool<nat>, past: set<Asked>, stamp: int,
                                          signature: string, events: seq<Event>, now: nat)
    requires Matches(cache, pool) && Kept(cache, pool, past) && Born(pool, past, now) && NoneCollide(past)
    requires cache.stamp != -1 ==> pool.at < |pool.fonts|
    requires stamp != -1 && forall e :: e in events && e.ChangeEngine? ==> e.stamp != -1
    requires Cached(Telling, maxFonts, cache, stamp, signature, events) == Direct(Telling, signature, events)
    ensures NoneCollide(past + Log(maxFonts, pool, cache.stamp, stamp, signature, events, now))
    decreases |events|
  {
    var log := Log(maxFonts, pool, cache.stamp, stamp, signature, events, now);
    if events == [] {
      assert past + log == past;
    } else {
      var event, rest := events[0], events[1..];
      assert event in events && forall e :: e in rest ==> e in events;
      AnswersSplit(Telling, maxFonts, cache, stamp, signature, events);
      EventKept(maxFonts, cache, pool, past, stamp, signature, event, now);
      LogSplit(maxFonts, pool, cache.stamp, stamp, signature, events, now, past);
      hide NoneCollide, Kept, Matches, Born, Synced, Answer, LifeOf, Cached, Direct, LivesAfter, CacheAfter, Log;
      var lives := LivesAfter(maxFonts, pool, cache.stamp, stamp, signature, event, now);
      CollisionShows(maxFonts, CacheAfter(Telling, maxFonts, cache, stamp, signature, event), lives,
                     past + (if event.GetGlyph? then {Asked(LifeOf(lives), Request(signature, event.code))} else {}),
                     if event.ChangeEngine? then event.stamp else stamp,
                     if event.ChangeEngine? then event.signature else signature, rest, now + 1);
    }
  }

  // The requests of a run from a new manager.
  function LogOf(maxFonts: nat, stamp: int, signature: string, events: seq<Event>): set<Asked> {
    Log(maxFonts, Pool([], 0), -1, stamp, signature, events, 0)
  }

  ghost predicate AnsweredAsAsked(render: Renderer, maxFonts: nat, stamp: int, signature: string, events: seq<Event>) {
    Cached(render, maxFonts, NEW_CACHE, stamp, signature, events) == Direct(render, signature, events)
  }

  /** A run is answered as by the engine, for every engine, if and only if requests that go to the same font in the same
      life and share a slot are the same. */
  lemma TransparentExactly(maxFonts: nat, stamp: int, signature: string, events: seq<Event>)
    requires stamp != -1 && forall e :: e in events && e.ChangeEngine? ==> e.stamp != -1
    ensures (forall render: Renderer :: AnsweredAsAsked(render, maxFonts, stamp, signature, events))
            <==> NoneCollide(LogOf(maxFonts, stamp, signature, events))
  {
    var none: Pool<nat> := Pool([], 0);
    var log := LogOf(maxFonts, stamp, signature, events);
    assert {} + log == log;
    if NoneCollide(log) {
      forall render: Renderer ensures AnsweredAsAsked(render, maxFonts, stamp, signature, events) {
        Transparent(render, maxFonts, NEW_CACHE, none, {}, stamp, signature, events, 0);
      }
    } else if AnsweredAsAsked(Telling, maxFonts, stamp, signature, events) {
      CollisionShows(maxFonts, NEW_CACHE, none, {}, stamp, signature, events, 0);
    }
    hide Cached, Log, NoneCollide;
  }

  // ----- Conditions on the codes alone -----

  /** The codes a run asks for. */
  function Requested(events: seq<Event>): (codes: set<nat>)
    ensures forall e :: e in events && e.GetGlyph? ==> e.code in codes
  {
    if events == [] then {}
    else (if events[0].GetGlyph? then {events[0].code} else {}) + Requested(events[1..])
  }

  /** No two different codes of a set share a slot. */
  ghost predicate NoneShare(codes: set<nat>) {
    forall c, d :: c in codes && d in codes && c % KEYS == d % KEYS ==> c == d
  }

  /** A stamp is never used for two signatures. */
  ghost predicate StampsTell(signatureAt: int -> string, stamp: int, signature: string, events: seq<Event>) {
    && signature == signatureAt(stamp)
    && forall e :: e in events && e.ChangeEngine? ==> e.signature == signatureAt(e.stamp)
  }

  // Requests of one life are of the signature of its font.
  ghost predicate LivesTell(pool: Pool<nat>, past: set<Asked>) {
    && (forall a, b :: a in past && b in past && a.life == b.life ==> a.request.signature == b.request.signature)
    && (forall a, i :: a in past && 0 <= i < |pool.fonts| && pool.fonts[i].content == a.life ==>
                         a.request.signature == pool.fonts[i].signature)
  }

  lemma SelectTells(pool: Pool<nat>, past: set<Asked>, maxFonts: nat, signature: string, reset: bool, now: nat)
    requires LivesTell(pool, past) && Born(pool, past, now)
    ensures var lives := Select(pool, maxFonts, signature, reset, now);
            && LivesTell(lives, past) && Born(lives, past, now + 1)
            && lives.at < |lives.fonts| && lives.fonts[lives.at].signature == signature
  {
    SelectBorn(pool, past, maxFonts, signature, reset, now);
    SelectSize(pool, maxFonts, signature, reset, now);
    var b := Select(pool, maxFonts, signature, reset, now);
    hide IndexOf, Select, From;
    forall a, i | a in past && 0 <= i < |b.fonts| && b.fonts[i].content == a.life
      ensures a.request.signature == b.fonts[i].signature
    {
      SelectFrom(pool, maxFonts, signature, reset, now, i);
    }
  }

  // The font in use is that of the stamp last seen.
  ghost predicate InUse(pool: Pool<nat>, seen: int, signatureAt: int -> string) {
    seen != -1 ==> pool.at < |pool.fonts| && pool.fonts[pool.at].signature == signatureAt(seen)
  }

  lemma EventTells(signatureAt: int -> string, maxFonts: nat, pool: Pool<nat>, seen: int, past: set<Asked>, stamp: int,
                   event: Event, now: nat)
    requires LivesTell(pool, past) && Born(pool, past, now) && InUse(pool, seen, signatureAt) && stamp != -1
    ensures var lives := LivesAfter(maxFonts, pool, seen, stamp, signatureAt(stamp), event, now);
            var asked := past + if event.GetGlyph? then {Asked(LifeOf(lives), Request(signatureAt(stamp), event.code))}
                                else {};
            && LivesTell(lives, asked) && Born(lives, asked, now + 1)
            && InUse(lives, if event.GetGlyph? || event.ResetTheCache? then stamp else seen, signatureAt)
  {
    var signature := signatureAt(stamp);
    SelectTells(pool, past, maxFonts, signature, event.ResetTheCache?, now);
    assert Born(pool, past, now + 1);
    hide Select;
    assert past + {} == past;
  }

  lemma {:induction false} LogTells(signatureAt: int -> string, maxFonts: nat, pool: Pool<nat>, seen: int,
                                    past: set<Asked>, stamp: int, signature: string, events: seq<Event>, now: nat)
    requires LivesTell(pool, past) && Born(pool, past, now) && InUse(pool, seen, signatureAt)
    requires StampsTell(signatureAt, stamp, signature, events)
    requires stamp != -1 && forall e :: e in events && e.ChangeEngine? ==> e.stamp != -1
    ensures var asked := past + Log(maxFonts, pool, seen, stamp, signature, events, now);
            forall a, b :: a in asked && b in asked && a.life == b.life ==> a.request.signature == b.request.signature
    decreases |events|
  {
    if events != [] {
      var event, rest := events[0], events[1..];
      assert event in events && forall e :: e in rest ==> e in events;
      LogSplit(maxFonts, pool, seen, stamp, signature, events, now, past);
      EventTells(signatureAt, maxFonts, pool, seen, past, stamp, event, now);
      hide LivesTell, Born, InUse, LifeOf, LivesAfter, Log;
      var lives := LivesAfter(maxFonts, pool, seen, stamp, signature, event, now);
      LogTells(signatureAt, maxFonts, lives, if event.GetGlyph? || event.ResetTheCache? then stamp else seen,
               past + (if event.GetGlyph? then {Asked(LifeOf(lives), Request(signature, event.code))} else {}),
               if event.ChangeEngine? then event.stamp else stamp,
               if event.ChangeEngine? then event.signature else signature, rest, now + 1);
    }
  }

  lemma {:induction false} LoggedAreRequested(maxFonts: nat, pool: Pool<nat>, seen: int, stamp: int, signature: string,
                                              events: seq<Event>, now: nat)
    ensures forall a :: a in Log(maxFonts, pool, seen, stamp, signature, events, now) ==>
                          a.request.code in Requested(events)
    decreases |events|
  {
    if events != [] {
      hide LivesAfter, LifeOf;
      var event := events[0];
      LoggedAreRequested(maxFonts, LivesAfter(maxFonts, pool, seen, stamp, signature, event, now),
                         if event.GetGlyph? || event.ResetTheCache? then stamp else seen,
                         if event.ChangeEngine? then event.stamp else stamp,
                         if event.ChangeEngine? then event.signature else signature, events[1..], now + 1);
    }
  }

  /** If the engine's stamp tells its signature, and no two different codes of the run share a slot, every engine's
      run is answered as by the engine itself. */
  lemma NoneShareIsDirect(render: Renderer, signatureAt: int -> string, maxFonts: nat, stamp: int, signature: string,
                          events: seq<Event>)
    requires StampsTell(signatureAt, stamp, signature, events) && NoneShare(Requested(events))
    requires stamp != -1 && forall e :: e in events && e.ChangeEngine? ==> e.stamp != -1
    ensures Cached(render, maxFonts, NEW_CACHE, stamp, signature, events) == Direct(render, signature, events)
  {
    var log := LogOf(maxFonts, stamp, signature, events);
    LogTells(signatureAt, maxFonts, Pool([], 0), -1, {}, stamp, signature, events, 0);
    LoggedAreRequested(maxFonts, Pool([], 0), -1, stamp, signature, events, 0);
    assert {} + log == log;
    TransparentExactly(maxFonts, stamp, signature, events);
    hide Log, Cached, Direct, Requested;
    assert NoneCollide(log);
    assert AnsweredAsAsked(render, maxFonts, stamp, signature, events);
  }

  // A run that neither changes the engine nor empties the cache.
  ghost predicate Steady(events: seq<Event>) {
    forall e :: e in events ==> e.GetGlyph? || e.ResetPair?
  }

  lemma {:induction false} SteadyLog(maxFonts: nat, pool: Pool<nat>, seen: int, stamp: int, signature: string,
                                     events: seq<Event>, now: nat) returns (life: nat)
    requires Steady(events)
    ensures seen == stamp ==> life == LifeOf(pool)
    ensures forall a :: a in Log(maxFonts, pool, seen, stamp, signature, events, now) <==>
                          a.life == life && a.request.signature == signature && a.request.code in Requested(events)
    decreases |events|
  {
    if events == [] {
      life := LifeOf(pool);
    } else {
      var event := events[0];
      assert event in events && Steady(events[1..]);
      hide LifeOf, Select;
      life := SteadyLog(maxFonts, LivesAfter(maxFonts, pool, seen, stamp, signature, event, now),
                        if event.GetGlyph? then stamp else seen, stamp, signature, events[1..], now + 1);
    }
  }

  /** A run without engine changes and cache resets is answered as by the engine, for every engine, if and only if no
      two different codes of it share a slot. */
  lemma SteadyExactly(maxFonts: nat, stamp: int, signature: string, events: seq<Event>)
    requires stamp != -1 && Steady(events)
    ensures (forall render: Renderer :: AnsweredAsAsked(render, maxFonts, stamp, signature, events))
            <==> NoneShare(Requested(events))
  {
    TransparentExactly(maxFonts, stamp, signature, events);
    var life := SteadyLog(maxFonts, Pool([], 0), -1, stamp, signature, events, 0);
    var log := LogOf(maxFonts, stamp, signature, events);
    hide AnsweredAsAsked, Log, Requested;
    if NoneCollide(log) {
      forall c, d | c in Requested(events) && d in Requested(events) && c % KEYS == d % KEYS ensures c == d {
        var a, b := Asked(life, Request(signature, c)), Asked(life, Request(signature, d));
        assert a in log && b in log;
      }
    }
  }

  // ----- Examples -----

  // Two requests for one slot of one font.
  lemma SecondGetsFirst(maxFonts: nat, stamp: int, first: Request, second: Request, events: seq<Event>)
    requires stamp != -1 && first.code % KEYS == second.code % KEYS
    requires events == [GetGlyph(first.code), ChangeEngine(stamp, second.signature), GetGlyph(second.code)]
    ensures Cached(Telling, maxFonts, NEW_CACHE, stamp, first.signature, events)
            == [Render(Telling, first), Render(Telling, first)]
    ensures Direct(Telling, first.signature, events) == [Render(Telling, first), Render(Telling, second)]
  {
    var rest, last := events[1..], [GetGlyph(second.code)];
    assert rest[1..] == last && last[1..] == [];
    var cache := Cache(Pool([Slot(first.signature, map[first.code % KEYS := first])], 0), stamp);
    assert CacheAfter(Telling, maxFonts, NEW_CACHE, stamp, first.signature, events[0]) == cache by {
      assert Select(NEW_CACHE.pool, maxFonts, first.signature, false, map[])
          == Pool([Slot(first.signature, map[])], 0);
    }
    assert Cached(Telling, maxFonts, cache, stamp, second.signature, last) == [Render(Telling, first)];
    assert Cached(Telling, maxFonts, cache, stamp, first.signature, rest) == [Render(Telling, first)];
    assert Direct(Telling, second.signature, last) == [Render(Telling, second)];
    assert Direct(Telling, first.signature, rest) == [Render(Telling, second)];
    hide Telling, Select;
  }

  /** The shortest such runs: code 65536 gets the glyph of code 0, and a stamp that comes back with another signature
      gets the glyphs of the old one. */
  lemma WrongGlyphs(maxFonts: nat, signature: string, other: string)
    requires signature != other
    ensures var events := [GetGlyph(0), ChangeEngine(0, signature), GetGlyph(KEYS)];
            Cached(Telling, maxFonts, NEW_CACHE, 0, signature, events) != Direct(Telling, signature, events)
    ensures var events := [GetGlyph(0), ChangeEngine(0, other), GetGlyph(0)];
            Cached(Telling, maxFonts, NEW_CACHE, 0, signature, events) != Direct(Telling, signature, events)
  {
    var zero, wide, stale := Request(signature, 0), Request(signature, KEYS), Request(other, 0);
    SecondGetsFirst(maxFonts, 0, zero, wide, [GetGlyph(0), ChangeEngine(0, signature), GetGlyph(KEYS)]);
    SecondGetsFirst(maxFonts, 0, zero, stale, [GetGlyph(0), ChangeEngine(0, other), GetGlyph(0)]);
    hide Cached, Direct, Render;
    if Render(Telling, zero) == Render(Telling, wide) { TellsApart(zero, wide); }
    if Render(Telling, zero) == Render(Telling, stale) { TellsApart(zero, stale); }
  }
}
