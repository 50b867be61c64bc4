/**
 * The gait records the dashboard displays: one per walking bout and one per
 * stride. Counts and sample positions are integers; durations, lengths,
 * speeds and cadences are reals (only their order and equality matter).
 */
module Parameters {

  /** One walking bout (`PerWbParameter`). */
  datatype PerWbParameter = PerWbParameter(
    wbId: int,
    start: int,
    end: int,
    nStrides: int,
    durationS: real,
    strideDurationS: real,
    strideLengthM: real,
    walkingSpeedMps: real,
    cadenceSpm: real)

  /** One stride (`PerStrideParameter`); `lrLabel` is "left" or "right". */
  datatype PerStrideParameter = PerStrideParameter(
    wbId: int,
    sId: int,
    start: int,
    end: int,
    lrLabel: string,
    cadenceSpm: real,
    strideDurationS: real,
    strideLengthM: real,
    walkingSpeedMps: real)

  /** The keys of a walking-bout record. */
  datatype PerWbField =
    | WbId | Start | End | NStrides | DurationS
    | StrideDurationS | StrideLengthM | WalkingSpeedMps | CadenceSpm

  /** The keys of a stride record. */
  datatype PerStrideField =
    | WbId | SId | Start | End | LrLabel
    | CadenceSpm | StrideDurationS | StrideLengthM | WalkingSpeedMps

  /** The value stored under a key: a number, or text for `lr_label`. */
  datatype FieldValue = Num(n: real) | Text(t: string)

  /** `wb[field]`; every walking-bout field is numeric. */
  function WbNumber(wb: PerWbParameter, field: PerWbField): real {
    match field
    case WbId => wb.wbId as real
    case Start => wb.start as real
    case End => wb.end as real
    case NStrides => wb.nStrides as real
    case DurationS => wb.durationS
    case StrideDurationS => wb.strideDurationS
    case StrideLengthM => wb.strideLengthM
    case WalkingSpeedMps => wb.walkingSpeedMps
    case CadenceSpm => wb.cadenceSpm
  }

  /** `stride[field]`. */
  function StrideValue(stride: PerStrideParameter, field: PerStrideField): FieldValue {
    match field
    case WbId => Num(stride.wbId as real)
    case SId => Num(stride.sId as real)
    case Start => Num(stride.start as real)
    case End => Num(stride.end as real)
    case LrLabel => Text(stride.lrLabel)
    case CadenceSpm => Num(stride.cadenceSpm)
    case StrideDurationS => Num(stride.strideDurationS)
    case StrideLengthM => Num(stride.strideLengthM)
    case WalkingSpeedMps => Num(stride.walkingSpeedMps)
  }
}
