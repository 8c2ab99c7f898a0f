/** The feature-flag module as the firmware keeps it: a static array, its length and one file. */
module FlagDriver {
  import opened Prelude
  import opened FlagStore

  class Driver {
    const prod: bool
    const flags: array<bool>
    var len: nat
    var file: Option<seq<bool>>

    ghost predicate Valid()
      reads this
    {
      flags.Length == COUNT && len <= COUNT
    }

    ghost function State(): Store
      requires Valid()
      reads this, flags
    {
      Store(flags[..], len, file)
    }

    constructor (prod: bool, file: Option<seq<bool>>)
      ensures Valid() && fresh(flags) && this.prod == prod
      ensures State() == Store(seq(COUNT, _ => false), 0, file)
    {
      this.prod := prod;
      this.file := file;
      flags := new bool[COUNT](_ => false);
      len := 0;
      new;
      assert flags[..] == seq(COUNT, _ => false);
    }

    /** One read call on the open file: the number of entries read, or an error with anything in the buffer. */
    method ReadEntries(entries: seq<bool>, fault: ReadFault) returns (got: int)
      requires Valid() && |entries| <= COUNT
      modifies flags
      ensures fault.ShortRead? ==> got < 0 && flags[..] == fault.garbage
      ensures !fault.ShortRead? ==> got == |entries| && flags[..] == entries + old(flags[..])[|entries|..]
    {
      if fault.ShortRead? {
        for i := 0 to COUNT
          invariant flags[..i] == fault.garbage[..i]
        {
          flags[i] := fault.garbage[i];
        }
        return -1;
      }
      for i := 0 to |entries|
        invariant forall j | 0 <= j < COUNT :: flags[j] == if j < i then entries[j] else old(flags[j])
      {
        flags[i] := entries[i];
      }
      got := |entries|;
    }

    /** Reads the whole file into the array; on success the file holds exactly the flags that count. */
    method ReadFile(fault: ReadFault) returns (ok: bool)
      requires Valid()
      modifies this`len, flags
      ensures Valid()
      ensures ok ==> file == Some(flags[..len])
      ensures !ok ==> len == 0 || (fault.CloseFails? && file == Some(flags[..len]))
      ensures (ok, flags[..], len) == ReadAll(old(State()), fault)
    {
      len := 0;
      if file.None? || fault.OpenFails? { return false; }
      var sizeOrErr := if fault.SizeFails? then -1 else |file.value|;
      if sizeOrErr <= 0 {
        if sizeOrErr == 0 { return !fault.CloseFails?; }
        return false;
      }
      if sizeOrErr > COUNT { return false; }
      var got := ReadEntries(file.value, fault);
      if got < 0 || got != sizeOrErr { return false; }
      len := sizeOrErr;
      ok := !fault.CloseFails?;
    }

    /** Writes the flags that count over the start of the file, which is created when missing and never cut. */
    method WriteFile(fault: WriteFault) returns (ok: bool)
      requires Valid() && len > 0
      modifies this`file
      ensures ok ==> file.Some? && flags[..len] <= file.value
      ensures (State(), ok) == Write(old(State()), fault)
    {
      if fault.Lost? {
        file := fault.left;
        return false;
      }
      NothingOverwritten(file);
      WriteSavesPrefix(file, flags[..len]);
      hide Overwritten;
      var contents := if file.Some? then file.value else [];
      for i := 0 to len
        invariant contents == Overwritten(file, flags[..i]) && file == old(file)
      {
        OverwritesNext(file, flags[..i], flags[i]);
        assert flags[..i + 1] == flags[..i] + [flags[i]];
        contents := if i < |contents| then contents[i := flags[i]] else contents + [flags[i]];
      }
      file := Some(contents);
      ok := true;
    }

    method SetDefaultValues()
      requires Valid()
      modifies this`len, flags
      ensures Valid() && len == COUNT
      ensures flags[..] == Completed(old(flags[..]), old(len))
    {
      var start := len;
      for i := start to COUNT
        invariant forall j | 0 <= j < COUNT :: flags[j] == if start <= j < i then Default(j) else old(flags[j])
      {
        if i == RATE_LIMIT_TEMPLATE_UPDATE || i == UNLOCK {
          flags[i] := false;
        } else {
          flags[i] := true;
        }
      }
      len := COUNT;
    }

    method ReadFlags(read: ReadFault, removes: bool, write: WriteFault) returns (ok: bool)
      requires Valid()
      modifies this, flags
      ensures Valid() && len == COUNT
      ensures (State(), ok) == Read(old(State()), read, removes, write)
    {
      ok := ReadFile(read);
      if !ok {
        SetDefaultValues();
        if removes { file := None; }
        ok := WriteFile(write);
      } else if len < COUNT {
        SetDefaultValues();
        ok := WriteFile(write);
      }
    }

    method InitFlags(read: ReadFault, removes: bool, write: WriteFault, clear: WriteFault) returns (ok: bool)
      requires Valid()
      modifies this, flags
      ensures Valid() && len == COUNT
      ensures (State(), ok) == Init(prod, old(State()), read, removes, write, clear)
    {
      ok := ReadFlags(read, removes, write);
      if prod {
        if flags[UNLOCK] {
          flags[UNLOCK] := false;
          var written := WriteFile(clear);
          ok := ok && written;
        }
      }
    }

    method SetFlag(flag: int, value: bool, write: WriteFault) returns (ok: bool)
      requires Valid() && len > 0
      modifies this`file, flags
      ensures Valid()
      ensures !Accepts(prod, flag) ==> !ok && flags[..] == old(flags[..]) && file == old(file)
      ensures Accepts(prod, flag) ==> OneSet(old(flags[..]), flag, value, flags[..])
      ensures (State(), ok) == Set(prod, old(State()), flag, value, write)
    {
      if flag < 0 || flag >= COUNT { return false; }
      if prod && flag == UNLOCK { return false; }
      flags[flag] := value;
      ok := WriteFile(write);
    }

    method SetFlags(settings: seq<Setting>, write: WriteFault) returns (ok: bool)
      requires Valid() && len > 0
      modifies this`file, flags
      ensures Valid()
      ensures !AcceptsAll(prod, settings) ==> !ok && flags[..] == old(flags[..]) && file == old(file)
      ensures AcceptsAll(prod, settings) ==> AllSet(old(flags[..]), settings, flags[..])
      ensures (State(), ok) == SetMultiple(prod, old(State()), settings, write)
    {
      hide AllSet;
      if AcceptsAll(prod, settings) { LastEntryWins(prod, flags[..], settings); }
      for i := 0 to |settings|
        invariant AcceptsAll(prod, settings[..i])
        invariant flags[..] == old(flags[..]) && file == old(file)
      {
        var flag := settings[i].flag;
        if flag < 0 || flag >= COUNT { return false; }
        if prod && flag == UNLOCK { return false; }
      }
      assert settings[..|settings|] == settings;
      for i := 0 to |settings|
        invariant flags[..] == Applied(prod, old(flags[..]), settings[..i]) && file == old(file)
      {
        assert settings[..i + 1][..i] == settings[..i];
        flags[settings[i].flag] := settings[i].enabled;
      }
      assert settings[..|settings|] == settings;
      ok := WriteFile(write);
    }
  }
}
