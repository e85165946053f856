/** From the bytes of a PE file to the loaded memory of the ELF file made from it. */
module FromFile {
  import opened Words
  import opened Elf32
  import opened PeImage
  import opened PeReader
  import opened Shim
  import opened Pipeline
  import opened Meaning

  /** The image that loading `f` leaves. */
  function Loaded(f: seq<byte>): (p: LoadedPe)
    requires Load(f).Ok? && WellFormed(Load(f).value.g)
  {
    LoadGuarantees(f);
    PeFile(Load(f).value.g, Load(f).value.imports, f)
  }

  lemma LoadedIsConvertible(f: seq<byte>)
    requires Load(f).Ok? && WellFormed(Load(f).value.g)
    ensures Convertible(Loaded(f))
  {
    hide Load, WellFormed;
    LoadGuarantees(f);
  }

  /** The whole program: `main` after its command line, on the bytes of a file. */
  function Winlift(f: seq<byte>, shim: EmbeddedShim): Option<seq<byte>>
    requires Load(f).Ok? ==> WellFormed(Load(f).value.g)
  {
    if Load(f).Err? then None
    else
      var r := Convert(Loaded(f), shim);
      if r.Ok? then Some(r.value) else None
  }

  /** For every file that is loaded as a well-formed image: it is converted unless layout or patching
      rejects it, and then the loaded ELF shows the intended memory at every address. */
  lemma {:induction false} FileMeaning(f: seq<byte>, shim: EmbeddedShim, a: nat)
    requires Load(f).Ok? && WellFormed(Load(f).value.g)
    ensures Winlift(f, shim).Some? <==> Rejects(Loaded(f), shim).None?
    ensures var out := Winlift(f, shim);
      out.Some? ==> LoadedByte(out.value, a) == IntendedByte(Loaded(f), shim, a)
  {
    hide Load, WellFormed, Rejects, Loaded, IntendedByte, LoadedByte, FinalSegments, Symbol;
    if Rejects(Loaded(f), shim).None? {
      LoadedIsConvertible(f);
      MeaningPreserved(Loaded(f), shim, a);
    }
  }

  /** In the running program every import of the file is linked, and the entry point is handed over. */
  lemma {:induction false} FileLinked(f: seq<byte>, shim: EmbeddedShim, k: nat)
    requires Load(f).Ok? && WellFormed(Load(f).value.g) && Winlift(f, shim).Some?
    requires k < |Loaded(f).Refs()| && LastWriter(Loaded(f).Refs(), k)
    ensures var out, ref := Winlift(f, shim).value, Loaded(f).Refs()[k];
      && Resolve(shim, ref.dll, ref.fn).Some?
      && LoadedWord(out, Loaded(f).g.imageBase + ref.iatRva) == Resolve(shim, ref.dll, ref.fn)
      && HasPhdrs(out) && Some(EntryOf(out)) == Symbol(shim, START)
      && Symbol(shim, ENTRY_TARGET).Some?
      && LoadedWord(out, Symbol(shim, ENTRY_TARGET).value) == Some(Loaded(f).EntryVa())
  {
    hide Load, WellFormed, Rejects, Loaded, LoadedWord, LoadedByte, FinalSegments, Symbol, Resolve, LastWriter,
         Convertible;
    FileMeaning(f, shim, 0);
    LoadedIsConvertible(f);
    SlotsLinked(Loaded(f), shim, k);
    EntryHandoff(Loaded(f), shim);
  }
}
