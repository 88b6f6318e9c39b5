// The SES element type names that mean "a drive bay", as both pages print them.
module ElementTypes {
  const ARRAY_DEVICE_SLOT := "Array device slot"
  const DEVICE_SLOT := "Device slot"
}
