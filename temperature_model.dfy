/** The reading exchanged between the sensor decoder, the store and the
    request handlers (the `TemperatureReading` model in
    server/models/Temperature.py). Python floats are modelled as exact reals. */
module TemperatureModel {

  datatype TemperatureReading = TemperatureReading(celsius: real, fahrenheit: real)

  /** Python's `abs` on a real. */
  function Abs(x: real): real {
    if x < 0.0 then -x else x
  }
}
