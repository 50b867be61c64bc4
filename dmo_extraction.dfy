/**
 * The checks and bookkeeping around digital-mobility-outcome extraction from
 * one uploaded recording: the measurement-condition check, and the
 * single-recording dataset handed to the gait pipeline. Reading the CSV and
 * the pipeline itself are outside the model; reading is a parameter.
 */
module DmoExtraction {
  import opened Wrappers

  /** The recording settings the upload form offers. */
  datatype MeasurementCondition = Laboratory | FreeLiving

  /** The name each setting is sent under. */
  function ConditionName(condition: MeasurementCondition): string {
    match condition
    case Laboratory => "laboratory"
    case FreeLiving => "free_living"
  }

  /** Python's `ValueError` with its message. */
  datatype ValueError = ValueError(message: string)

  const ValidMeasurementConditions: seq<string> := ["laboratory", "free_living"]

  const MeasurementConditionMessage: string :=
    "measurement_condition must be either 'laboratory' or 'free_living'"

  /** `is_valid_measurement_condition`: returns, or raises `ValueError`. */
  function IsValidMeasurementCondition(measurementCondition: string): Outcome<ValueError> {
    if measurementCondition !in ValidMeasurementConditions then Fail(ValueError(MeasurementConditionMessage))
    else Pass
  }

  /**
   * The check accepts exactly the names of the form's settings, and
   * rejects every other string with the fixed message.
   */
  lemma IsValidMeasurementConditionIff(measurementCondition: string)
    ensures IsValidMeasurementCondition(measurementCondition).Pass?
        <==> exists condition :: ConditionName(condition) == measurementCondition
    ensures IsValidMeasurementCondition(measurementCondition).Fail? ==>
        IsValidMeasurementCondition(measurementCondition).error == ValueError(MeasurementConditionMessage)
  {
    if measurementCondition == "laboratory" {
      assert ConditionName(Laboratory) == measurementCondition;
    } else if measurementCondition == "free_living" {
      assert ConditionName(FreeLiving) == measurementCondition;
    }
  }

  /** The `(cohort, id)` index of a recording. */
  type RecordId = (string, string)

  /** The index of the one recording a dataset is built from. */
  const SingleRecord: RecordId := ("MS", "1")

  datatype ParticipantMetadata = ParticipantMetadata(cohort: string, sensorHeightM: real, heightM: real)

  datatype RecordingMetadata = RecordingMetadata(measurementCondition: string)

  /**
   * The arguments given to the gait library's dataset constructor: sensor
   * data per recording and sensor position, the sampling rate, the
   * participant and recording metadata per recording, and the index columns.
   */
  datatype GaitDataset<D> = GaitDataset(
    data: map<RecordId, map<string, D>>,
    samplingRateHz: int,
    participantMetadata: map<RecordId, ParticipantMetadata>,
    recordingMetadata: map<RecordId, RecordingMetadata>,
    indexCols: seq<string>)

  /** Every recording has data and both kinds of metadata, and a condition that passes the check. */
  ghost predicate ValidDataset<D>(dataset: GaitDataset<D>) {
    && dataset.data.Keys == dataset.participantMetadata.Keys == dataset.recordingMetadata.Keys
    && forall id :: id in dataset.recordingMetadata ==>
         IsValidMeasurementCondition(dataset.recordingMetadata[id].measurementCondition).Pass?
  }

  /**
   * `create_dataset_from_dataframe`: checks the condition first; builds the
   * metadata only for a valid one, and then files the data, the participant
   * (cohort "MS" and the given heights) and the condition under the single
   * key ("MS", "1").
   */
  method CreateDatasetFromDataframe<D>(data: D, sensorHeightM: real, heightM: real, measurementCondition: string, samplingRateHz: int)
    returns (r: Result<GaitDataset<D>, ValueError>)
    ensures r.Failure? <==> measurementCondition !in ValidMeasurementConditions
    ensures r.Failure? ==> r.error == ValueError(MeasurementConditionMessage)
    ensures r.Success? ==>
      && ValidDataset(r.value)
      && r.value.data.Keys == {SingleRecord}
      && r.value.data[SingleRecord] == map["LowerBack" := data]
      && r.value.participantMetadata[SingleRecord] == ParticipantMetadata("MS", sensorHeightM, heightM)
      && r.value.recordingMetadata[SingleRecord] == RecordingMetadata(measurementCondition)
      && r.value.samplingRateHz == samplingRateHz
      && r.value.indexCols == ["cohort", "id"]
  {
    var check := IsValidMeasurementCondition(measurementCondition);
    if check.Fail? {
      return Failure(check.error);
    }

    var participantMetadata := ParticipantMetadata("MS", sensorHeightM, heightM);
    var recordingMetadata := RecordingMetadata(measurementCondition);

    var loadedData: map<RecordId, map<string, D>> := map[];
    var participantMetadataDataset: map<RecordId, ParticipantMetadata> := map[];
    var recordingMetadataDataset: map<RecordId, RecordingMetadata> := map[];

    loadedData := loadedData[SingleRecord := map["LowerBack" := data]];
    participantMetadataDataset := participantMetadataDataset[SingleRecord := participantMetadata];
    recordingMetadataDataset := recordingMetadataDataset[SingleRecord := recordingMetadata];

    r := Success(GaitDataset(loadedData, samplingRateHz, participantMetadataDataset, recordingMetadataDataset, ["cohort", "id"]));
  }

  /** The side-effecting steps of an extraction, in the order they happen. */
  datatype Stage = CsvLoaded | DatasetCreated

  /**
   * `extract_dmos` up to the pipeline run: checks the condition before
   * anything else, so an invalid one raises before the CSV is read; then
   * reads the CSV with `loadCsv` and builds the single-recording dataset the
   * pipeline runs on.
   */
  method ExtractDmos<P, D>(csvPath: P, sensorHeightM: real, heightM: real, measurementCondition: string,
                           samplingRateHz: int, convertAccFromGToMs: bool, loadCsv: (P, bool) -> D)
    returns (r: Result<GaitDataset<D>, ValueError>, stages: seq<Stage>)
    ensures r.Failure? <==> measurementCondition !in ValidMeasurementConditions
    ensures r.Failure? ==> r.error == ValueError(MeasurementConditionMessage) && stages == []
    ensures r.Success? ==>
      && stages == [CsvLoaded, DatasetCreated]
      && ValidDataset(r.value)
      && r.value.data == map[SingleRecord := map["LowerBack" := loadCsv(csvPath, convertAccFromGToMs)]]
      && r.value.participantMetadata == map[SingleRecord := ParticipantMetadata("MS", sensorHeightM, heightM)]
      && r.value.recordingMetadata == map[SingleRecord := RecordingMetadata(measurementCondition)]
      && r.value.samplingRateHz == samplingRateHz
      && r.value.indexCols == ["cohort", "id"]
  {
    stages := [];
    var check := IsValidMeasurementCondition(measurementCondition);
    if check.Fail? {
      return Failure(check.error), stages;
    }

    var data := loadCsv(csvPath, convertAccFromGToMs);
    stages := stages + [CsvLoaded];

    r := CreateDatasetFromDataframe(data, sensorHeightM, heightM, measurementCondition, samplingRateHz);
    stages := stages + [DatasetCreated];
  }
}
