/** Panel identities and the USB identifiers that select a panel's device
    (panel.go). */
module Ids {

  /** Panel type tag carried by every switch event; the Go enumeration is
      Radio = 0, Multi = 1, Switch = 2. */
  datatype PanelId = Radio | Multi | Switch

  /** USB vendor id shared by all three panels. */
  const VendorPanel: nat := 0x06a3

  const ProductRadio: nat := 0x0d05
  const ProductMulti: nat := 0x0d06
  const ProductSwitch: nat := 0x0d67

  /** The product id a panel constructor asks the transport to open. */
  function ProductOf(id: PanelId): nat
  {
    match id
    case Radio => ProductRadio
    case Multi => ProductMulti
    case Switch => ProductSwitch
  }
}
