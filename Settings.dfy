/**
 * The device settings: the recording interval and the serial speed, kept in
 * RAM and persisted as a 7-byte block at the start of the FRAM, guarded by
 * the same CRC-16 as the log records. When the stored CRC does not match,
 * `begin` falls back to the defaults (one hour, 9600 baud).
 *
 * Block layout (packed, little-endian): interval (1) | serialSpeed (4) | crc (2).
 */
module Settings {
  import opened Bytes
  import opened Crc16
  import opened Storage
  import LogSystem

  /** `sizeof(Data)`: the number of bytes the settings block occupies. */
  const BlockSize: nat := 7

  /** The number of `Interval` values, `I10s` (0) to `I24h` (6). */
  const IntervalCount: nat := 7

  /** `I1h`, the default interval. */
  const I1h: uint8 := 4

  /** `S9600`, the default serial speed. */
  const S9600: uint32 := 9600

  /** The two settings without their CRC. */
  datatype Config = Config(interval: uint8, serialSpeed: uint32)

  /** What `resetToDefault` sets. */
  const Defaults: Config := Config(I1h, S9600)

  /** The first five bytes of the block: the interval, then the serial speed. */
  function Fields(config: Config): (r: seq<uint8>)
    ensures |r| == 5
  {
    [config.interval] + Le32(config.serialSpeed as nat)
  }

  /** The block with the given settings and CRC field. */
  function Block(config: Config, crc: nat): (r: seq<uint8>)
    requires crc < 0x1_0000
    ensures |r| == BlockSize
  {
    Fields(config) + Le16(crc)
  }

  /** The CRC over the block with its CRC field zeroed. */
  function FieldsCrc(config: Config): bv16 {
    Crc(Seed, Fields(config) + [0, 0])
  }

  /** The block `saveToStorage` writes: the settings and the CRC over them. */
  function Stored(config: Config): (r: seq<uint8>)
    ensures |r| == BlockSize
  {
    Block(config, FieldsCrc(config) as nat)
  }

  /** The settings fields of seven stored bytes, whatever they hold. */
  function ConfigOf(block: seq<uint8>): Config
    requires |block| == BlockSize
  {
    Config(block[0], FromLe32(block[1..5]) as uint32)
  }

  /** The settings `begin` ends up with after reading `block`: its fields if its CRC matches, the defaults otherwise. */
  function Load(block: seq<uint8>): (config: Config)
    requires |block| == BlockSize
    ensures config == ConfigOf(block) || config == Defaults
  {
    if FieldsCrc(ConfigOf(block)) as nat == FromLe16(block[5..]) then ConfigOf(block) else Defaults
  }

  /** Every seven bytes are the block of the settings they hold and the CRC field they hold. */
  lemma BlockOfBytes(block: seq<uint8>)
    requires |block| == BlockSize
    ensures block == Block(ConfigOf(block), FromLe16(block[5..]))
  {
    FromLe32RoundTrip(block[1..5]);
    FromLe16RoundTrip(block[5..]);
    var rebuilt := Block(ConfigOf(block), FromLe16(block[5..]));
    assert forall k :: 0 <= k < BlockSize ==> rebuilt[k] == block[k];
  }

  /** Reading a block gives back its settings exactly when its CRC field holds their CRC. */
  lemma LoadBlock(config: Config, crc: nat)
    requires crc < 0x1_0000
    ensures Load(Block(config, crc)) == if FieldsCrc(config) as nat == crc then config else Defaults
  {
    var block := Block(config, crc);
    assert block[1..5] == Le32(config.serialSpeed as nat);
    Le32RoundTrip(config.serialSpeed as nat);
    assert ConfigOf(block) == config;
    assert block[5..] == Le16(crc);
    Le16RoundTrip(crc);
  }

  /** What `saveToStorage` writes, `begin` reads back unchanged. */
  lemma LoadStored(config: Config)
    ensures Load(Stored(config)) == config
  {
    LoadBlock(config, FieldsCrc(config) as nat);
  }

  /** After a save, the next `begin` on the medium restores the saved settings. */
  lemma SavedSettingsReload(m: seq<uint8>, config: Config)
    requires BlockSize <= |m|
    ensures Load(Overwrite(m, 0, Stored(config))[..BlockSize]) == config
  {
    OverwriteReadsBack(m, 0, Stored(config));
    LoadStored(config);
  }

  /**
   * A saved block with any one byte changed is rejected: `begin` falls back
   * to the defaults.
   */
  lemma CorruptedBlockResets(config: Config, p: nat, b: uint8)
    requires p < BlockSize && b != Stored(config)[p]
    ensures Load(Stored(config)[p := b]) == Defaults
  {
    var crc := FieldsCrc(config) as nat;
    var block := Block(config, crc)[p := b];
    var config', crc' := ConfigOf(block), FromLe16(block[5..]);
    BlockOfBytes(block);
    LoadBlock(config', crc');
    if p < 5 {
      FieldChanged(config, crc, p, b);
      CrcDetectsSingleByteChange(Seed, Fields(config') + [0, 0], Fields(config) + [0, 0], p);
      AsNatInjective(FieldsCrc(config'), FieldsCrc(config));
    } else {
      CrcFieldChanged(config, crc, p, b);
    }
  }

  /** One byte of the settings changed: the CRC field is as it was, and the CRC input differs in that byte only. */
  lemma FieldChanged(config: Config, crc: nat, p: nat, b: uint8)
    requires crc < 0x1_0000 && p < 5 && b != Block(config, crc)[p]
    ensures var block := Block(config, crc)[p := b];
            var m1, m2 := Fields(ConfigOf(block)) + [0, 0], Fields(config) + [0, 0];
            && FromLe16(block[5..]) == crc
            && |m1| == |m2| == BlockSize && m1[p] != m2[p]
            && forall k :: 0 <= k < BlockSize && k != p ==> m1[k] == m2[k]
  {
    var saved := Block(config, crc);
    var block := saved[p := b];
    BlockOfBytes(block);
    assert block[5..] == saved[5..] == Le16(crc);
    Le16RoundTrip(crc);
    assert saved[..5] == Fields(config);
  }

  /** One byte of the CRC field changed: the settings are as they were, the CRC field is not. */
  lemma CrcFieldChanged(config: Config, crc: nat, p: nat, b: uint8)
    requires crc < 0x1_0000 && 5 <= p < BlockSize && b != Block(config, crc)[p]
    ensures var block := Block(config, crc)[p := b];
            ConfigOf(block) == config && FromLe16(block[5..]) != crc
  {
    var saved := Block(config, crc);
    var block := saved[p := b];
    assert block[..5] == saved[..5];
    assert saved[1..5] == Le32(config.serialSpeed as nat);
    Le32RoundTrip(config.serialSpeed as nat);
    assert ConfigOf(block) == ConfigOf(saved) == config;
    FromLe16RoundTrip(block[5..]);
    assert block[5..] != saved[5..];
  }

  /** A chip that holds only zero bytes yields the defaults. */
  lemma BlankChipGivesDefaults()
    ensures Load(Zeros(BlockSize)) == Defaults
  {
    var config := ConfigOf(Zeros(BlockSize));
    assert Fields(config) + [0, 0] == Zeros(BlockSize);
    CrcOfZerosNonZero(Seed, BlockSize);
  }

  /**
   * The block lies inside the bytes the log reserves for it
   * (`LogSystem::begin(Settings::size())`), so saving the settings never
   * changes the record count the log finds.
   */
  lemma SaveKeepsLog(m: seq<uint8>, config: Config, max: nat, holds: seq<uint8> -> bool)
    requires LogSystem.SlotsFit(m, BlockSize, max)
    ensures LogSystem.ScanCount(Overwrite(m, 0, Stored(config)), BlockSize, max, holds)
            == LogSystem.ScanCount(m, BlockSize, max, holds)
  {
    LogSystem.SettingsWriteKeepsCount(m, Stored(config), BlockSize, max, holds);
  }

  // ---------------------------------------------------------------------
  // The tables indexed by the interval

  /** `cIntervals`: the recording interval in seconds. */
  function IntervalInSeconds(interval: uint8): (seconds: nat)
    requires (interval as nat) < IntervalCount
    ensures 10 <= seconds <= 86400 && 86400 % seconds == 0
  {
    [10, 30, 60, 600, 3600, 28800, 86400][interval]
  }

  /** `cPowerSaveDurations`: how long the device waits before saving power, in seconds. */
  function PowerSaveDuration(interval: uint8): (seconds: nat)
    requires (interval as nat) < IntervalCount
    ensures seconds < IntervalInSeconds(interval)
  {
    [2, 5, 10, 60, 60, 60, 60][interval]
  }

  /** A longer interval comes later in the enumeration and waits at least as long before saving power. */
  lemma TablesMonotone(i: uint8, j: uint8)
    requires i < j && (j as nat) < IntervalCount
    ensures IntervalInSeconds(i) < IntervalInSeconds(j)
    ensures PowerSaveDuration(i) <= PowerSaveDuration(j)
  {
  }

  /** The default interval is one hour. */
  lemma DefaultIsOneHour()
    ensures (Defaults.interval as nat) < IntervalCount && IntervalInSeconds(Defaults.interval) == 3600
  {
  }

  // ---------------------------------------------------------------------
  // The settings in RAM

  /** `gData`: the settings and the CRC field, and the medium they are saved to. */
  class SettingsStore {
    const medium: array<uint8>
    var interval: uint8
    var serialSpeed: uint32
    var crc: uint16

    /** The settings part of `gData`. */
    function Current(): Config
      reads this
    {
      Config(interval, serialSpeed)
    }

    /** `gData` is a static variable: all zero until `begin`. */
    constructor (medium: array<uint8>)
      ensures this.medium == medium && interval == 0 && serialSpeed == 0 && crc == 0
    {
      this.medium := medium;
      interval, serialSpeed, crc := 0, 0, 0;
    }

    /** `resetToDefault`: one hour and 9600 baud; the CRC field is left alone. */
    method ResetToDefault()
      modifies this
      ensures Current() == Defaults && crc == old(crc)
    {
      interval := I1h;
      serialSpeed := S9600;
    }

    /**
     * `saveToStorage`: compute the CRC over the block with its CRC field
     * zeroed, store it in the field and write the block at address 0.
     */
    method SaveToStorage()
      requires BlockSize <= medium.Length
      modifies this`crc, medium
      ensures crc as int == FieldsCrc(Current()) as int
      ensures medium[..] == Overwrite(old(medium[..]), 0, Stored(Current()))
    {
      crc := 0;
      var computed := Checksum(Block(Current(), crc as nat));
      crc := computed as int as uint16;
      WriteBytes(medium, 0, Block(Current(), crc as nat));
    }

    /**
     * `begin`: read the block at address 0, zero its CRC field, recompute the
     * CRC and fall back to the defaults when it differs from the stored one.
     */
    method Begin()
      requires BlockSize <= medium.Length
      modifies this
      ensures Current() == Load(medium[..BlockSize]) && crc == 0
    {
      var block := ReadBytes(medium, 0, BlockSize);
      interval := block[0];
      serialSpeed := FromLe32(block[1..5]) as uint32;
      crc := FromLe16(block[5..]) as uint16;
      var dataCrc := crc;
      crc := 0;
      assert Block(Current(), crc as nat) == Fields(Current()) + [0, 0];
      var computed := Checksum(Block(Current(), crc as nat));
      assert Current() == ConfigOf(block) && computed == FieldsCrc(ConfigOf(block));
      if computed as int != dataCrc as int {
        ResetToDefault();
      }
    }

    /** `setInterval`: change the interval and save. */
    method SetInterval(newInterval: uint8)
      requires BlockSize <= medium.Length
      modifies this, medium
      ensures Current() == Config(newInterval, old(serialSpeed))
      ensures crc as int == FieldsCrc(Current()) as int
      ensures medium[..] == Overwrite(old(medium[..]), 0, Stored(Current()))
    {
      interval := newInterval;
      SaveToStorage();
    }

    /** `setSerialSpeed`: change the serial speed and save. */
    method SetSerialSpeed(speed: uint32)
      requires BlockSize <= medium.Length
      modifies this, medium
      ensures Current() == Config(old(interval), speed)
      ensures crc as int == FieldsCrc(Current()) as int
      ensures medium[..] == Overwrite(old(medium[..]), 0, Stored(Current()))
    {
      serialSpeed := speed;
      SaveToStorage();
    }

    /** `getIntervalInSeconds`. */
    function CurrentIntervalInSeconds(): (seconds: nat)
      reads this
      requires (interval as nat) < IntervalCount
      ensures 10 <= seconds && 86400 % seconds == 0
    {
      IntervalInSeconds(interval)
    }

    /** `getPowerSaveDuration`. */
    function CurrentPowerSaveDuration(): (seconds: nat)
      reads this
      requires (interval as nat) < IntervalCount
      ensures seconds < CurrentIntervalInSeconds()
    {
      PowerSaveDuration(interval)
    }
  }
}
