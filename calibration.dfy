/** The calibration record of u6/calibration.go: a product identifier, a high-resolution flag
    and exactly 40 constants (0-23 base resolution, 24-39 the high-resolution AIN block). */
module Calibration {
  import opened Bytes

  /** CalibrationConstants is a Go array `[40]float64`; the model uses reals. */
  type CalConstants = s: seq<real> | |s| == 40 witness seq(40, _ => 0.0)

  datatype CalibrationInfo = CalibrationInfo(productID: Byte, hiResolution: bool, calConstants: CalConstants)

  /** The zero value of the Go struct, which a command holds until its calibration is set. */
  const ZeroCalibration: CalibrationInfo := CalibrationInfo(0, false, seq(40, _ => 0.0))
}
