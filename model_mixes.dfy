/**
 The mixer list engine of the model-mixes page: the count and line-count queries and the
 insert, delete, copy and move operations, run in place on the model's array of mix
 records (radio/src/gui/480x272/model_mixes.cpp). Each operation is proved against its
 value-level meaning in MixSpec.
 */
module ModelMixes {
  import opened MixSpec

  /** The first available source at or above `start`: the probe loop of a new mix's default
      source. `bound` is an available source at or above `start`; the availability policy
      guarantees one exists. */
  method FirstAvailableFrom(start: nat, avail: nat -> bool, ghost bound: nat) returns (src: nat)
    requires start <= bound && avail(bound)
    ensures start <= src <= bound && avail(src)
    ensures forall t: nat :: start <= t < src ==> !avail(t)
  {
    src := start;
    while !avail(src)
      invariant start <= src <= bound
      invariant forall t: nat :: start <= t < src ==> !avail(t)
      decreases bound - src
    {
      src := src + 1;
    }
  }

  /** The model's mix records (g_model.mixData). */
  class MixList {
    const mixData: array<Mix>

    /** True while the real-time mixer is paused (between pauseMixerCalculations and
        resumeMixerCalculations). */
    ghost var paused: bool

    /** Set when the model has been changed and must be written back to storage. */
    ghost var dirty: bool

    /** Between operations the array has its fixed size and the mixer is running. */
    ghost predicate Valid()
      reads this
    {
      mixData.Length == MAX_MIXERS && !paused
    }

    /** A model's mix array starts out zeroed. */
    constructor ()
      ensures Valid() && fresh(mixData) && !dirty
      ensures forall k :: 0 <= k < mixData.Length ==> mixData[k] == ZeroMix
    {
      mixData := new Mix[MAX_MIXERS](_ => ZeroMix);
      paused := false;
      dirty := false;
    }

    /** getMixesCount as written: the scan from the last slot down reads each source id
        through an 8-bit variable, so a slot whose source id is a multiple of 256 counts as
        empty. */
    method GetMixesCountAsWritten() returns (count: nat)
      requires Valid()
      ensures count == CountLowByte(mixData[..])
      ensures count <= CountUsed(mixData[..]) <= MAX_MIXERS
      ensures (forall k :: 0 <= k < mixData.Length ==> mixData[k].srcRaw < 256) ==>
        count == CountUsed(mixData[..])
    {
      count := 0;
      var i: int := MAX_MIXERS - 1;
      while i >= 0
        invariant -1 <= i < MAX_MIXERS
        invariant count == CountLowByte(mixData[i + 1..])
      {
        var ch := LowByte(mixData[i].srcRaw);
        if ch != 0 {
          count := count + 1;
        }
        assert mixData[i..][1..] == mixData[i + 1..];
        i := i - 1;
      }
      assert mixData[0..] == mixData[..];
      if forall k :: 0 <= k < mixData.Length ==> mixData[k].srcRaw < 256 {
        CountLowByteNarrow(mixData[..]);
      }
    }

    /** reachMixesLimit as written, on the 8-bit count: a true result means no slot is free,
        but a full list may be reported as not full. */
    method ReachMixesLimitAsWritten() returns (full: bool)
      requires Valid()
      ensures full <==> CountLowByte(mixData[..]) == MAX_MIXERS
      ensures full ==> forall k :: 0 <= k < mixData.Length ==> Used(mixData[k])
      ensures (forall k :: 0 <= k < mixData.Length ==> mixData[k].srcRaw < 256) ==>
        (full <==> forall k :: 0 <= k < mixData.Length ==> Used(mixData[k]))
    {
      var count := GetMixesCountAsWritten();
      full := count >= MAX_MIXERS;
      CountFull(mixData[..]);
    }

    /** Number of slots in use, scanned from the last slot down, reading each source id at
        its full width. */
    method GetMixesCount() returns (count: nat)
      requires Valid()
      ensures count == CountUsed(mixData[..])
      ensures count <= MAX_MIXERS
    {
      count := 0;
      var i: int := MAX_MIXERS - 1;
      while i >= 0
        invariant -1 <= i < MAX_MIXERS
        invariant count == CountUsed(mixData[i + 1..])
      {
        var ch := mixData[i].srcRaw;
        if ch != 0 {
          count := count + 1;
        }
        assert mixData[i..][1..] == mixData[i + 1..];
        i := i - 1;
      }
      assert mixData[0..] == mixData[..];
    }

    /** True when no slot is free: the check the mix menu makes before it offers to insert
        or copy (the list page's mix menu and the list screen's insert and copy commands). */
    method ReachMixesLimit() returns (full: bool)
      requires Valid()
      ensures full <==> CountUsed(mixData[..]) == MAX_MIXERS
      ensures full <==> forall k :: 0 <= k < mixData.Length ==> Used(mixData[k])
    {
      var count := GetMixesCount();
      full := count >= MAX_MIXERS;
      CountFull(mixData[..]);
    }

    /** Number of display lines of the mixer list, scanned up to the first empty slot. */
    method GetMixesLinesCount() returns (count: nat)
      requires Valid()
      ensures count == LinesCount(mixData[..])
      ensures count >= MAX_OUTPUT_CHANNELS
    {
      var lastch: int := -1;
      count := MAX_OUTPUT_CHANNELS;
      var i := 0;
      assert mixData[0..] == mixData[..];
      while i < MAX_MIXERS
        invariant 0 <= i <= MAX_MIXERS
        invariant count + Repeats(mixData[i..], lastch) == LinesCount(mixData[..])
      {
        var valid := mixData[i].srcRaw != 0;
        if !valid {
          break;
        }
        var ch := mixData[i].destCh;
        if ch == lastch {
          count := count + 1;
        } else {
          lastch := ch;
        }
        assert mixData[i..][1..] == mixData[i + 1..];
        i := i + 1;
      }
    }

    /** memmove(mix+1, mix, ...): the slots from `idx` move one place right; slot `idx`
        keeps its record and the old last slot is overwritten. */
    method ShiftRight(idx: nat)
      requires mixData.Length == MAX_MIXERS && paused && idx < MAX_MIXERS
      modifies mixData
      ensures mixData[..] == Copied(old(mixData[..]), idx)
    {
      forall k | idx < k < mixData.Length {
        mixData[k] := mixData[k - 1];
      }
    }

    /** memmove(mix, mix+1, ...): the slots after `idx` move one place left; the last slot
        keeps its record. */
    method ShiftLeft(idx: nat)
      requires mixData.Length == MAX_MIXERS && paused && idx < MAX_MIXERS
      modifies mixData
      ensures forall k :: 0 <= k < idx ==> mixData[k] == old(mixData[k])
      ensures forall k :: idx <= k < MAX_MIXERS - 1 ==> mixData[k] == old(mixData[k + 1])
      ensures mixData[MAX_MIXERS - 1] == old(mixData[MAX_MIXERS - 1])
    {
      forall k | idx <= k < mixData.Length - 1 {
        mixData[k] := mixData[k + 1];
      }
    }

    /** Inserts a new mix on `channel` at slot `idx`. The source is `channel + 1` when that is
        available, otherwise the first available source from the fallback upward; `avail`,
        `rud` and `channelOrder` stand for isSourceAvailable, MIXSRC_Rud and channel_order.
        The old last slot is dropped, so callers that must not lose a record check
        ReachMixesLimit first. */
    method InsertMix(idx: nat, channel: nat, avail: nat -> bool, rud: nat, channelOrder: nat -> nat, ghost bound: nat)
      requires Valid() && idx < MAX_MIXERS
      requires Fallback(channel, rud, channelOrder) >= 1
      requires avail(channel + 1) || (Fallback(channel, rud, channelOrder) <= bound && avail(bound))
      modifies this, mixData
      ensures Valid() && dirty
      ensures mixData[..] == Inserted(old(mixData[..]), idx, NewMix(channel, mixData[idx].srcRaw))
      ensures DefaultSource(mixData[idx].srcRaw, channel, avail, rud, channelOrder)
      ensures avail(mixData[idx].srcRaw) && Used(mixData[idx])
      ensures Contiguous(old(mixData[..])) && CountUsed(old(mixData[..])) < MAX_MIXERS ==>
        CountUsed(mixData[..]) == CountUsed(old(mixData[..])) + 1
      ensures WellFormed(old(mixData[..])) && FitsAt(old(mixData[..]), idx, channel) ==>
        WellFormed(mixData[..])
    {
      ghost var before := mixData[..];
      paused := true;
      ShiftRight(idx);
      // memclear of slot idx and the field writes; nothing reads the slot in between
      var mix := ZeroMix;
      mix := mix.(destCh := channel);
      mix := mix.(srcRaw := channel + 1);
      if !avail(mix.srcRaw) {
        var from: nat := Fallback(channel, rud, channelOrder);
        var src := FirstAvailableFrom(from, avail, bound);
        mix := mix.(srcRaw := src);
      }
      mix := mix.(weight := 100);
      mixData[idx] := mix;
      paused := false;
      dirty := true;
      ghost var m := NewMix(channel, mix.srcRaw);
      assert mix == m;
      assert mixData[..] == Inserted(before, idx, m);
      InsertCount(before, idx, m);
      if Contiguous(before) && CountUsed(before) < MAX_MIXERS {
        CapacityGuard(before);
      }
      if WellFormed(before) && FitsAt(before, idx, channel) {
        InsertKeepsWellFormed(before, idx, m);
      }
    }

    /** The one-argument insertMix as written: it passes on the list screen's current channel
        number (counted from 1) plus one, two channels above the one the cursor is on. */
    method InsertMixAtCurrentAsWritten(idx: nat, currCh: nat, avail: nat -> bool, rud: nat, channelOrder: nat -> nat, ghost bound: nat)
      requires Valid() && idx < MAX_MIXERS
      requires Fallback(WrapperChannelAsWritten(currCh), rud, channelOrder) >= 1
      requires avail(WrapperChannelAsWritten(currCh) + 1) ||
        (Fallback(WrapperChannelAsWritten(currCh), rud, channelOrder) <= bound && avail(bound))
      modifies this, mixData
      ensures Valid() && dirty
      ensures mixData[..] == Inserted(old(mixData[..]), idx, NewMix(WrapperChannelAsWritten(currCh), mixData[idx].srcRaw))
      ensures DefaultSource(mixData[idx].srcRaw, WrapperChannelAsWritten(currCh), avail, rud, channelOrder)
      ensures avail(mixData[idx].srcRaw) && Used(mixData[idx])
    {
      InsertMix(idx, WrapperChannelAsWritten(currCh), avail, rud, channelOrder, bound);
    }

    /** The one-argument insertMix with the intended channel: the cursor's channel number
        minus one. Inserting at the cursor keeps the list well formed. */
    method InsertMixAtCurrent(idx: nat, currCh: nat, avail: nat -> bool, rud: nat, channelOrder: nat -> nat, ghost bound: nat)
      requires Valid() && idx < MAX_MIXERS && currCh >= 1
      requires Fallback(WrapperChannel(currCh), rud, channelOrder) >= 1
      requires avail(WrapperChannel(currCh) + 1) ||
        (Fallback(WrapperChannel(currCh), rud, channelOrder) <= bound && avail(bound))
      modifies this, mixData
      ensures Valid() && dirty
      ensures mixData[..] == Inserted(old(mixData[..]), idx, NewMix(WrapperChannel(currCh), mixData[idx].srcRaw))
      ensures DefaultSource(mixData[idx].srcRaw, WrapperChannel(currCh), avail, rud, channelOrder)
      ensures avail(mixData[idx].srcRaw) && Used(mixData[idx])
      ensures WellFormed(old(mixData[..])) && CursorSlot(old(mixData[..]), idx, currCh) ==> WellFormed(mixData[..])
    {
      ghost var before := mixData[..];
      if WellFormed(before) && CursorSlot(before, idx, currCh) {
        WrapperInsertKeepsWellFormed(before, idx, currCh, 1);
      }
      InsertMix(idx, WrapperChannel(currCh), avail, rud, channelOrder, bound);
    }

    /** The insertion behind the button of a channel without mixes, with the reachMixesLimit
        check the mix menu makes: `idx` is the page builder's slot for the channel, at most
        the number of mixes. On a full list nothing happens; otherwise the mix is inserted
        and no record is lost. */
    method InsertOnEmptyChannel(idx: nat, channel: nat, avail: nat -> bool, rud: nat, channelOrder: nat -> nat, ghost bound: nat)
      returns (inserted: bool)
      requires Valid() && Contiguous(mixData[..]) && idx <= CountUsed(mixData[..])
      requires Fallback(channel, rud, channelOrder) >= 1
      requires avail(channel + 1) || (Fallback(channel, rud, channelOrder) <= bound && avail(bound))
      modifies this, mixData
      ensures Valid()
      ensures inserted <==> CountUsed(old(mixData[..])) < MAX_MIXERS
      ensures !inserted ==> mixData[..] == old(mixData[..]) && dirty == old(dirty)
      ensures inserted ==> idx < MAX_MIXERS && dirty && !Used(old(mixData[MAX_MIXERS - 1]))
      ensures inserted ==> mixData[..] == Inserted(old(mixData[..]), idx, NewMix(channel, mixData[idx].srcRaw))
      ensures inserted ==> DefaultSource(mixData[idx].srcRaw, channel, avail, rud, channelOrder)
      ensures inserted ==> avail(mixData[idx].srcRaw) && Used(mixData[idx])
      ensures inserted ==> CountUsed(mixData[..]) == CountUsed(old(mixData[..])) + 1
      ensures inserted && WellFormed(old(mixData[..])) && FitsAt(old(mixData[..]), idx, channel) ==>
        WellFormed(mixData[..])
    {
      ghost var before := mixData[..];
      var full := ReachMixesLimit();
      if full {
        return false;
      }
      CapacityGuard(before);
      InsertMix(idx, channel, avail, rud, channelOrder, bound);
      inserted := true;
    }

    /** Deletes the mix at slot `idx`: the slots after it move one place left and the last
        slot is cleared. */
    method DeleteMix(idx: nat)
      requires Valid() && idx < MAX_MIXERS
      modifies this, mixData
      ensures Valid() && dirty
      ensures mixData[..] == Deleted(old(mixData[..]), idx)
      ensures CountUsed(mixData[..]) == CountUsed(old(mixData[..])) - UsedBit(old(mixData[idx]))
      ensures WellFormed(old(mixData[..])) ==> WellFormed(mixData[..])
    {
      ghost var before := mixData[..];
      paused := true;
      ShiftLeft(idx);
      ghost var moved := mixData[..];
      mixData[MAX_MIXERS - 1] := ZeroMix;
      paused := false;
      dirty := true;
      assert mixData[..] == moved[MAX_MIXERS - 1 := ZeroMix];
      DeletedIsMoveAndClear(before, moved, idx);
      DeleteCount(before, idx);
      if WellFormed(before) {
        DeleteKeepsWellFormed(before, idx);
      }
    }

    /** Duplicates the mix at slot `idx`: it is now at `idx` and at `idx + 1`. The old last
        slot is dropped; its caller, the list screen's copy command, checks ReachMixesLimit first. */
    method CopyMix(idx: nat)
      requires Valid() && idx < MAX_MIXERS
      modifies this, mixData
      ensures Valid() && dirty
      ensures mixData[..] == Copied(old(mixData[..]), idx)
      ensures mixData[idx] == old(mixData[idx]) && (idx + 1 < MAX_MIXERS ==> mixData[idx + 1] == old(mixData[idx]))
      ensures Contiguous(old(mixData[..])) && CountUsed(old(mixData[..])) < MAX_MIXERS ==>
        CountUsed(mixData[..]) == CountUsed(old(mixData[..])) + UsedBit(old(mixData[idx]))
      ensures WellFormed(old(mixData[..])) ==> WellFormed(mixData[..])
    {
      ghost var before := mixData[..];
      paused := true;
      ShiftRight(idx);
      paused := false;
      dirty := true;
      CopyCount(before, idx);
      if Contiguous(before) && CountUsed(before) < MAX_MIXERS {
        CapacityGuard(before);
      }
      if WellFormed(before) {
        CopyKeepsWellFormed(before, idx);
      }
    }

    /** Moves the mix at slot `idx` one step up or down: past the edge of its channel group it
        changes channel, inside the group it changes places with its neighbour. Returns
        whether it moved and the slot it is now in. Does not mark the model dirty: its callers do. */
    method SwapMixes(idx: nat, up: bool) returns (ok: bool, newIdx: nat)
      requires Valid() && idx < MAX_MIXERS
      modifies this, mixData
      ensures Valid() && dirty == old(dirty)
      ensures SwapResult(ok, mixData[..], newIdx) == Swapped(old(mixData[..]), idx, up)
      ensures !ok ==> mixData[..] == old(mixData[..]) && newIdx == idx
      ensures CountUsed(mixData[..]) == CountUsed(old(mixData[..]))
      ensures WellFormed(old(mixData[..])) && Used(old(mixData[idx])) ==> WellFormed(mixData[..])
    {
      ghost var s := mixData[..];

      var tgt: int := if up then idx - 1 else idx + 1;
      var x := mixData[idx];
      ok, newIdx := true, idx;

      if tgt < 0 {
        if x.destCh == 0 {
          ok := false;
        } else {
          mixData[idx] := x.(destCh := x.destCh - 1);
          assert mixData[..] == Rechannel(s, idx, x.destCh - 1);
        }
      } else if tgt == MAX_MIXERS {
        if x.destCh == MAX_OUTPUT_CHANNELS - 1 {
          ok := false;
        } else {
          mixData[idx] := x.(destCh := x.destCh + 1);
          assert mixData[..] == Rechannel(s, idx, x.destCh + 1);
        }
      } else {
        var y := mixData[tgt];
        var destCh := x.destCh;
        if y.srcRaw == 0 || destCh != y.destCh {
          if up {
            if destCh > 0 {
              mixData[idx] := x.(destCh := x.destCh - 1);
              assert mixData[..] == Rechannel(s, idx, x.destCh - 1);
            } else {
              ok := false;
            }
          } else {
            if destCh < MAX_OUTPUT_CHANNELS - 1 {
              mixData[idx] := x.(destCh := x.destCh + 1);
              assert mixData[..] == Rechannel(s, idx, x.destCh + 1);
            } else {
              ok := false;
            }
          }
        } else {
          paused := true;
          mixData[idx], mixData[tgt] := y, x;
          paused := false;
          assert mixData[..] == s[idx := y][tgt := x];
          newIdx := tgt;
        }
      }
      assert SwapResult(ok, mixData[..], newIdx) == Swapped(s, idx, up);
      SwapFailureUnchanged(s, idx, up);
      SwapKeepsCount(s, idx, up);
      if WellFormed(s) && Used(s[idx]) {
        SwapKeepsWellFormed(s, idx, up);
      }
    }
  }
}
