/** The serialising half of `pack` in tools/ncplu.py: the file is grown part by part. */
module NcpluWriter {
  import opened Bytes
  import F = NcpluFormat
  import P = NcpluPack

  // ------------------------------------------------------------------- names

  lemma {:induction false} InternAllNext(p: F.Pool, names: seq<F.Name>, name: F.Name)
    ensures F.InternAll(p, names + [name]) == F.Intern(F.InternAll(p, names), name)
    decreases |names|
  {
    hide F.Intern;
    var all := names + [name];
    if names == [] {
      assert all[1..] == [];
    } else {
      assert all[1..] == names[1..] + [name];
      InternAllNext(F.Intern(p, names[0]), names[1..], name);
    }
  }

  /** Names already placed keep their entries when more names are interned. */
  lemma {:induction false} ImportTableStays(p: F.Pool, q: F.Pool, names: seq<F.Name>)
    requires F.Extends(p, q) && forall i | 0 <= i < |names| :: names[i] in p.at
    ensures F.ImportTable(p, names) == F.ImportTable(q, names)
  {
    if names != [] {
      ImportTableStays(p, q, names[1..]);
      assert names[0] in p.at;
    }
  }

  lemma {:induction false} ExportTableStays(p: F.Pool, q: F.Pool, es: seq<F.Export>)
    requires F.Extends(p, q) && forall i | 0 <= i < |es| :: es[i].name in p.at
    ensures F.ExportTable(p, es) == F.ExportTable(q, es)
  {
    if es != [] {
      ExportTableStays(p, q, es[1..]);
      assert es[0].name in p.at;
    }
  }

  lemma {:induction false} ImportTableNext(p: F.Pool, names: seq<F.Name>, name: F.Name)
    ensures F.ImportTable(p, names + [name]) == F.ImportTable(p, names) + F.NameBytes(p, name)
  {
    hide F.NameBytes;
    var all := names + [name];
    if names == [] {
      assert all[1..] == [];
    } else {
      assert all[1..] == names[1..] + [name];
      ImportTableNext(p, names[1..], name);
    }
  }

  lemma {:induction false} ExportTableNext(p: F.Pool, es: seq<F.Export>, e: F.Export)
    ensures F.ExportTable(p, es + [e]) == F.ExportTable(p, es) + F.ExportBytes(p, e)
  {
    hide F.ExportBytes;
    var all := es + [e];
    if es == [] {
      assert all[1..] == [];
    } else {
      assert all[1..] == es[1..] + [e];
      ExportTableNext(p, es[1..], e);
    }
  }

  lemma {:induction false} ExportNamesNext(es: seq<F.Export>, e: F.Export)
    ensures F.ExportNames(es + [e]) == F.ExportNames(es) + [e.name]
  {
    assert forall i | 0 <= i < |es| :: (es + [e])[i] == es[i];
  }

  method WriteImports(names: seq<F.Name>) returns (pool: F.Pool, bytes: seq<byte>)
    ensures pool == F.InternAll(F.Pool([], map[]), names) && bytes == F.ImportTable(pool, names)
  {
    hide F.Intern, F.InternAll, F.NameBytes, F.ImportTable, F.PoolHolds;
    ghost var start := F.Pool([], map[]);
    pool, bytes := F.Pool([], map[]), [];
    NothingInterned(start);
    for i := 0 to |names|
      invariant F.PoolHolds(pool) && pool == F.InternAll(start, names[..i])
      invariant bytes == F.ImportTable(pool, names[..i])
    {
      ghost var before := pool;
      F.InternAllHolds(start, names[..i]);
      F.InternHolds(pool, names[i]);
      pool := F.Intern(pool, names[i]);
      ImportTableStays(before, pool, names[..i]);
      InternAllNext(start, names[..i], names[i]);
      ImportTableNext(pool, names[..i], names[i]);
      assert names[..i + 1] == names[..i] + [names[i]];
      bytes := bytes + F.NameBytes(pool, names[i]);
    }
    assert names[..|names|] == names;
  }

  method WriteExports(start: F.Pool, es: seq<F.Export>) returns (pool: F.Pool, bytes: seq<byte>)
    requires F.PoolHolds(start)
    ensures pool == F.InternAll(start, F.ExportNames(es)) && bytes == F.ExportTable(pool, es)
  {
    hide F.Intern, F.InternAll, F.ExportBytes, F.ExportTable, F.PoolHolds, F.ExportNames;
    pool, bytes := start, [];
    NothingInterned(start);
    for i := 0 to |es|
      invariant F.PoolHolds(pool) && pool == F.InternAll(start, F.ExportNames(es[..i]))
      invariant bytes == F.ExportTable(pool, es[..i])
    {
      ghost var before := pool;
      F.InternAllHolds(start, F.ExportNames(es[..i]));
      F.InternHolds(pool, es[i].name);
      pool := F.Intern(pool, es[i].name);
      NamesPlaced(before, es[..i]);
      ExportTableStays(before, pool, es[..i]);
      ExportNamesNext(es[..i], es[i]);
      InternAllNext(start, F.ExportNames(es[..i]), es[i].name);
      ExportTableNext(pool, es[..i], es[i]);
      assert es[..i + 1] == es[..i] + [es[i]];
      bytes := bytes + F.ExportBytes(pool, es[i]);
    }
    assert es[..|es|] == es;
  }

  lemma NamesPlaced(p: F.Pool, es: seq<F.Export>)
    requires forall i | 0 <= i < |F.ExportNames(es)| :: F.ExportNames(es)[i] in p.at
    ensures forall i | 0 <= i < |es| :: es[i].name in p.at
  {
    forall i | 0 <= i < |es|
      ensures es[i].name in p.at
    {
      assert F.ExportNames(es)[i] == es[i].name;
    }
  }

  lemma NothingInterned(p: F.Pool)
    ensures F.InternAll(p, []) == p && F.ExportNames([]) == [] && F.PoolHolds(F.Pool([], map[]))
    ensures F.ImportTable(p, []) == [] && F.ExportTable(p, []) == []
  {
  }

  // ------------------------------------------------------------------ tables

  lemma {:induction false} RelocTableNext(rs: seq<F.Reloc>, r: F.Reloc)
    requires F.RelocFits(r) && forall i | 0 <= i < |rs| :: F.RelocFits(rs[i])
    ensures F.RelocTable(rs + [r]) == F.RelocTable(rs) + F.RelocBytes(r)
  {
    hide F.RelocBytes, F.RelocFits;
    var all := rs + [r];
    if rs == [] {
      assert all[1..] == [];
    } else {
      assert all[1..] == rs[1..] + [r];
      RelocTableNext(rs[1..], r);
    }
  }

  method WriteRelocs(rs: seq<F.Reloc>) returns (bytes: seq<byte>)
    requires forall i | 0 <= i < |rs| :: F.RelocFits(rs[i])
    ensures bytes == F.RelocTable(rs)
  {
    hide F.RelocBytes, F.RelocFits;
    bytes := [];
    for i := 0 to |rs|
      invariant bytes == F.RelocTable(rs[..i])
    {
      RelocTableNext(rs[..i], rs[i]);
      assert rs[..i + 1] == rs[..i] + [rs[i]];
      bytes := bytes + F.RelocBytes(rs[i]);
    }
    assert rs[..|rs|] == rs;
  }

  lemma {:induction false} SectionsNext(ss: seq<F.Section>, s: F.Section, fileOff: nat)
    ensures F.Images(ss + [s]) == F.Images(ss) + s.bytes
    ensures F.SectionTable(ss + [s], fileOff)
      == F.SectionTable(ss, fileOff) + F.SectionBytes(s, fileOff + |F.Images(ss)|)
  {
    hide F.SectionBytes;
    var all := ss + [s];
    if ss == [] {
      assert all[1..] == [];
    } else {
      assert all[1..] == ss[1..] + [s];
      SectionsNext(ss[1..], s, fileOff + |ss[0].bytes|);
    }
  }

  /** Appends the section images to `body`; each table entry takes the place where its image went. */
  method WriteSections(ss: seq<F.Section>, body: seq<byte>) returns (r: seq<byte>, table: seq<byte>)
    ensures r == body + F.Images(ss) && table == F.SectionTable(ss, |body|)
  {
    hide F.SectionBytes;
    r, table := body, [];
    for i := 0 to |ss|
      invariant r == body + F.Images(ss[..i]) && table == F.SectionTable(ss[..i], |body|)
    {
      SectionsNext(ss[..i], ss[i], |body|);
      assert ss[..i + 1] == ss[..i] + [ss[i]];
      table := table + F.SectionBytes(ss[i], |r|);
      r := r + ss[i].bytes;
    }
    assert ss[..|ss|] == ss;
  }

  method Pad8(body: seq<byte>) returns (r: seq<byte>)
    ensures r == body + Zeros(F.PadTo8(|body|))
  {
    r := body;
    while |r| % 8 != 0
      invariant |body| <= |r| <= |body| + F.PadTo8(|body|) && r == body + Zeros(|r| - |body|)
      decreases |body| + 8 - |r|
    {
      r := r + [0];
    }
  }

  // --------------------------------------------------------------- the file

  /** Writes a module: images, tables and names behind an empty header, then the header, then its digest. */
  method WriteModule(m: F.Module, sha: seq<byte> -> seq<byte>) returns (body: seq<byte>)
    requires F.Representable(m)
    ensures body == F.File(m, sha)
  {
    hide F.HeaderFront, F.HeaderBack, F.Contents, F.LayoutOf;
    body := WriteBody(m);
    var at := F.LayoutOf(m);
    var digest := F.DigestField(sha(F.Signed(F.FileWith(m, Zeros(64)), at.signature)));
    HeaderGoesIn(m, Zeros(64));
    body := Patch(body, 0, F.HeaderFront(m));
    body := Patch(body, 152, F.HeaderBack(m)[..4]);
    assert body == F.FileWith(m, Zeros(64));
    DigestGoesIn(m, digest);
    body := Patch(body, 88, F.DigestField(sha(F.Signed(body, at.signature))));
  }

  lemma HeaderGoesIn(m: F.Module, digest: seq<byte>)
    requires F.Representable(m) && digest == Zeros(64)
    ensures (var body := Zeros(F.HEADER_SIZE) + F.Contents(m) + Zeros(F.SIGNATURE_LEN);
      Patch(Patch(body, 0, F.HeaderFront(m)), 152, F.HeaderBack(m)[..4]) == F.FileWith(m, digest))
  {
    hide F.HeaderFront, F.Contents, F.LayoutOf, Le;
  }

  lemma DigestGoesIn(m: F.Module, digest: seq<byte>)
    requires F.Representable(m) && |digest| == 64
    ensures Patch(F.FileWith(m, Zeros(64)), 88, digest) == F.FileWith(m, digest)
  {
    hide F.HeaderFront, F.HeaderBack, F.Contents, F.LayoutOf;
  }

  method WriteNames(m: F.Module) returns (pool: F.Pool, imports: seq<byte>, exports: seq<byte>)
    ensures pool == F.PoolOf(m) && imports == F.ImportTable(pool, m.imports) && exports == F.ExportTable(pool, m.exports)
  {
    hide F.ImportTable, F.ExportTable, F.InternAll, F.ExportNames, F.PoolHolds;
    pool, imports := WriteImports(m.imports);
    ghost var early := pool;
    NothingInterned(pool);
    F.InternAllHolds(F.Pool([], map[]), m.imports);
    pool, exports := WriteExports(pool, m.exports);
    F.InternAllHolds(early, F.ExportNames(m.exports));
    ImportTableStays(early, pool, m.imports);
  }

  method WriteBody(m: F.Module) returns (body: seq<byte>)
    requires F.Representable(m)
    ensures body == Zeros(F.HEADER_SIZE) + F.Contents(m) + Zeros(F.SIGNATURE_LEN)
  {
    hide F.RelocTable, F.ImportTable, F.ExportTable, F.SectionTable, F.Images, F.PoolOf;
    var pool, imports, exports := WriteNames(m);
    var relocs := WriteRelocs(m.relocs);
    var sections;
    body := Zeros(F.HEADER_SIZE);
    body, sections := WriteSections(m.sections, body);
    body := Pad8(body);
    ghost var front := body;
    body := body + sections;
    body := body + imports;
    body := body + exports;
    body := body + relocs;
    body := body + pool.blob;
    BodyIs(front, sections, imports, exports, relocs, pool.blob, F.PadTo8(|body|));
    body := Pad8(body);
    assert body == front + F.FromSections(m);
    body := body + Zeros(F.SIGNATURE_LEN);
  }

  lemma BodyIs(a: seq<byte>, b: seq<byte>, c: seq<byte>, d: seq<byte>, e: seq<byte>, f: seq<byte>, n: nat)
    ensures a + b + c + d + e + f + Zeros(n) == a + (b + (c + (d + (e + (f + Zeros(n))))))
  {
    var z := Zeros(n);
    assert a + b + c + d + e + f + z == a + b + c + d + e + (f + z);
    assert a + b + c + d + e + (f + z) == a + b + c + d + (e + (f + z));
    assert a + b + c + d + (e + (f + z)) == a + b + c + (d + (e + (f + z)));
    assert a + b + c + (d + (e + (f + z))) == a + b + (c + (d + (e + (f + z))));
  }

  /** Packs an object into a module file. */
  method Pack(e: P.Elf, o: P.Options, sha: seq<byte> -> seq<byte>) returns (r: P.Result<seq<byte>>)
    ensures r == P.PackOf(e, o, sha)
  {
    hide P.LinkAll, P.Exports, P.EntryOf, F.Representable, F.File, P.Kept, P.FlatAll;
    var kept := P.Kept(e.sections);
    if kept == [] {
      return P.Refused(P.NoSections);
    }
    var link := P.LinkRelas(e);
    if link.Refused? {
      return P.Refused(link.error);
    }
    var exports, entry := P.FindExports(e, o.entry);
    if entry.None? {
      return P.Refused(P.NoEntry);
    }
    var m := F.Module(P.FlatAll(kept), link.value.imports, exports, link.value.relocs, entry.value, o.caps,
                      P.OrZero(P.ArchCode(o.arch)), P.OrZero(P.KindCode(o.kind)));
    if !F.Representable(m) {
      return P.Refused(P.FieldTooBig);
    }
    if P.ArchCode(o.arch).None? {
      return P.Refused(P.UnknownArch);
    }
    if P.KindCode(o.kind).None? {
      return P.Refused(P.UnknownKind);
    }
    var file := WriteModule(m, sha);
    return P.Done(file);
  }
}
